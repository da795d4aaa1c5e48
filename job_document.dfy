/** A job definition as the linter sees it once its keys have been symbolized,
    and the few Ruby core methods the linter calls on it: `empty?`, `each`,
    `downcase`, string interpolation and `uniq!`. A Ruby method that is not
    defined on the receiver raises NoMethodError; here it yields `Fault`. */
module JobDocument {

  datatype Option<T> = None | Some(value: T)

  /** A decoded JSON/YAML value. Mapping keys are already symbols, so a key
      is written as its name. */
  datatype Value =
    | Str(s: string)
    | Num(n: int)
    | Bool(b: bool)
    | Null
    | Arr(items: seq<Value>)
    | Obj(fields: map<string, Value>)

  /** The exceptions the linter can meet: each is a NoMethodError. */
  datatype Failure =
    | NotSymbolizable(doc: Value)   // `deep_symbolize_keys` on a non-Hash
    | NoEmpty(receiver: Value)      // `empty?` on a number, boolean or nil
    | NoEach(receiver: Value)       // `each` on a String
    | NoDowncase(receiver: Value)   // `downcase` on a non-String
    | NilInclude                    // `include?` on a nil stage list

  /** The result of a Ruby call that may raise. */
  datatype Attempt<T> = Ok(value: T) | Fault(failure: Failure)

  /** `v.empty?`: String, Array and Hash answer; anything else raises. */
  function IsEmpty(v: Value): (r: Attempt<bool>)
    ensures r.Ok? <==> v.Str? || v.Arr? || v.Obj?
    ensures r.Fault? ==> r.failure == NoEmpty(v)
    ensures v.Str? ==> r == Ok(|v.s| == 0)
    ensures v.Arr? ==> r == Ok(v.items == [])
    ensures v.Obj? ==> r == Ok(|v.fields| == 0)
  {
    match v
    case Str(s) => Ok(|s| == 0)
    case Arr(items) => Ok(|items| == 0)
    case Obj(fields) => Ok(|fields| == 0)
    case _ => Fault(NoEmpty(v))
  }

  /** Stands for one `[key, value]` pair that `Hash#each` hands to a block
      with one parameter. The linter only asks of such a pair whether it is
      a Hash, and it never is. */
  const Pair: Value := Arr([Null, Null])

  /** What `v.each` yields: an Array's elements in order, or one pair per
      entry of a Hash. Strings have no `each`. */
  function Members(v: Value): (r: Attempt<seq<Value>>)
    requires v.Str? || v.Arr? || v.Obj?
    ensures v.Arr? ==> r == Ok(v.items)
    ensures v.Obj? ==> r.Ok? && |r.value| == |v.fields| && forall i :: 0 <= i < |r.value| ==> !r.value[i].Obj?
    ensures v.Str? ==> r == Fault(NoEach(v))
  {
    match v
    case Arr(items) => Ok(items)
    case Obj(fields) => Ok(seq(|fields|, _ => Pair))
    case Str(_) => Fault(NoEach(v))
  }

  lemma ValuesAssoc(a: seq<Value>, b: seq<Value>, c: seq<Value>)
    ensures a + b + c == a + (b + c)
  {
  }

  predicate IsUpper(c: char) { 'A' <= c <= 'Z' }

  function LowerChar(c: char): (d: char)
    ensures !IsUpper(d)
    ensures !IsUpper(c) ==> d == c
  {
    if IsUpper(c) then (c as int + 32) as char else c
  }

  /** `String#downcase`, restricted to ASCII letters. */
  function Downcase(s: string): (r: string)
    ensures |r| == |s|
    ensures forall i :: 0 <= i < |r| ==> r[i] == LowerChar(s[i])
    ensures forall i :: 0 <= i < |r| ==> !IsUpper(r[i])
  {
    if |s| == 0 then "" else [LowerChar(s[0])] + Downcase(s[1..])
  }

  lemma {:induction false} DowncaseIdempotent(s: string)
    ensures Downcase(Downcase(s)) == Downcase(s)
  {
    if |s| > 0 {
      DowncaseIdempotent(s[1..]);
      assert Downcase(s)[1..] == Downcase(s[1..]);
    }
  }

  /** `v.downcase`: only a String has it. */
  function DowncaseOf(v: Value): (r: Attempt<string>)
    ensures r.Ok? <==> v.Str?
    ensures r.Ok? ==> r.value == Downcase(v.s)
    ensures r.Fault? ==> r.failure == NoDowncase(v)
  {
    if v.Str? then Ok(Downcase(v.s)) else Fault(NoDowncase(v))
  }

  function DigitChar(d: nat): char
    requires d < 10
  {
    "0123456789"[d]
  }

  function NatToString(n: nat): (r: string)
    ensures |r| > 0
    decreases n
  {
    if n < 10 then [DigitChar(n)] else NatToString(n / 10) + [DigitChar(n % 10)]
  }

  /** How `"#{v}"` shows a value: a String as itself, an Integer in decimal,
      true/false, and nil as the empty string. Arrays and Hashes are shown by
      a fixed placeholder instead of Ruby's `inspect` text. */
  function Render(v: Value): (r: string)
    ensures v.Str? ==> r == v.s
  {
    match v
    case Str(s) => s
    case Num(n) => if n < 0 then "-" + NatToString(-n) else NatToString(n)
    case Bool(b) => if b then "true" else "false"
    case Null => ""
    case Arr(_) => "[...]"
    case Obj(_) => "{...}"
  }

  /** The Ruby class of a value, as a NoMethodError message names it. */
  function ClassName(v: Value): string {
    match v
    case Str(_) => "String"
    case Num(_) => "Integer"
    case Bool(b) => if b then "TrueClass" else "FalseClass"
    case Null => "NilClass"
    case Arr(_) => "Array"
    case Obj(_) => "Hash"
  }

  /** The text of the exception, in the shape of a NoMethodError message. */
  function FailureText(f: Failure): string {
    match f
    case NotSymbolizable(v) => "undefined method `deep_symbolize_keys' for " + ClassName(v)
    case NoEmpty(v) => "undefined method `empty?' for " + ClassName(v)
    case NoEach(v) => "undefined method `each' for " + ClassName(v)
    case NoDowncase(v) => "undefined method `downcase' for " + ClassName(v)
    case NilInclude => "undefined method `include?' for NilClass"
  }

  ghost predicate NoDuplicates(s: seq<string>) {
    forall i, j :: 0 <= i < j < |s| ==> s[i] != s[j]
  }

  /** `Array#uniq`: drops every element that occurred earlier, keeping the
      first occurrence of each. */
  function Dedup(s: seq<string>): (r: seq<string>)
    ensures |r| <= |s|
    decreases |s|
  {
    if |s| == 0 then []
    else
      var d := Dedup(s[..|s| - 1]);
      if s[|s| - 1] in d then d else d + [s[|s| - 1]]
  }

  lemma {:induction false} DedupElements(s: seq<string>)
    ensures forall x :: x in Dedup(s) <==> x in s
    decreases |s|
  {
    if |s| > 0 {
      var init := s[..|s| - 1];
      DedupElements(init);
      assert s == init + [s[|s| - 1]];
    }
  }

  lemma {:induction false} DedupNoDuplicates(s: seq<string>)
    ensures NoDuplicates(Dedup(s))
    decreases |s|
  {
    if |s| > 0 {
      DedupNoDuplicates(s[..|s| - 1]);
    }
  }

  /** A sequence without repetitions is left as it is. */
  lemma {:induction false} DedupOfDistinct(s: seq<string>)
    requires NoDuplicates(s)
    ensures Dedup(s) == s
    decreases |s|
  {
    if |s| > 0 {
      var init := s[..|s| - 1];
      DedupOfDistinct(init);
    }
  }

  /** The position of the first occurrence of `x` in `s`. */
  ghost function FirstIndex(s: seq<string>, x: string): (k: nat)
    requires x in s
    ensures k < |s| && s[k] == x && x !in s[..k]
  {
    if s[0] == x then 0 else 1 + FirstIndex(s[1..], x)
  }

  lemma FirstIndexOfPrefix(s: seq<string>, n: nat, x: string)
    requires n <= |s| && x in s[..n]
    ensures FirstIndex(s, x) == FirstIndex(s[..n], x)
  {
    var k, m := FirstIndex(s, x), FirstIndex(s[..n], x);
    assert s[..n][..m] == s[..m];
  }

  /** The survivors keep the order of their first occurrences. */
  lemma {:induction false} DedupKeepsFirstOccurrenceOrder(s: seq<string>, i: nat, j: nat)
    requires i < j < |Dedup(s)|
    ensures Dedup(s)[i] in s && Dedup(s)[j] in s
    ensures FirstIndex(s, Dedup(s)[i]) < FirstIndex(s, Dedup(s)[j])
    decreases |s|
  {
    DedupElements(s);
    assert |s| > 0;
    var init := s[..|s| - 1];
    var d := Dedup(init);
    DedupElements(init);
    var x := Dedup(s)[i];
    var y := Dedup(s)[j];
    assert i < |d| && x == d[i] && x in d;
    assert x in init;
    FirstIndexOfPrefix(s, |s| - 1, x);
    if j < |d| {
      DedupKeepsFirstOccurrenceOrder(init, i, j);
      FirstIndexOfPrefix(s, |s| - 1, y);
    } else {
      assert y == s[|s| - 1] && y !in init;
    }
  }

  /** `uniq!` on the dependency list, with a set of elements already seen. */
  method Uniq(s: seq<string>) returns (r: seq<string>)
    ensures r == Dedup(s)
    ensures NoDuplicates(r)
    ensures forall x :: x in r <==> x in s
  {
    r := [];
    var seen: set<string> := {};
    for i := 0 to |s|
      invariant r == Dedup(s[..i])
      invariant forall x :: x in seen <==> x in r
    {
      assert s[..i + 1][..i] == s[..i];
      if s[i] !in seen {
        r := r + [s[i]];
        seen := seen + {s[i]};
      }
    }
    assert s[..|s|] == s;
    DedupNoDuplicates(s);
    DedupElements(s);
  }
}
