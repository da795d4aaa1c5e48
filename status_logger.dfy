/** The append-only log of findings the verifier writes into. */
module StatusLog {

  /** MessageTypes: a finding is a warning (tag 0) or an error (tag 1). */
  datatype MessageType = Warning | Error

  /** One `{ type:, text: }` record of the log. */
  datatype Message = Message(kind: MessageType, text: string)

  /** The number of records of the given type. */
  function Count(log: seq<Message>, kind: MessageType): (n: nat)
    ensures n <= |log|
    decreases |log|
  {
    if |log| == 0 then 0
    else Count(log[..|log| - 1], kind) + (if log[|log| - 1].kind == kind then 1 else 0)
  }

  lemma AppendAssoc(a: seq<Message>, b: seq<Message>, c: seq<Message>)
    ensures a + (b + c) == (a + b) + c
  {
  }

  lemma AppendNothing(a: seq<Message>)
    ensures a + [] == a
  {
  }

  lemma {:induction false} CountConcat(a: seq<Message>, b: seq<Message>, kind: MessageType)
    ensures Count(a + b, kind) == Count(a, kind) + Count(b, kind)
    decreases |b|
  {
    if |b| > 0 {
      var c := b[..|b| - 1];
      assert (a + b)[..|a + b| - 1] == a + c;
      CountConcat(a, c, kind);
    } else {
      assert a + b == a;
    }
  }

  /** Appending one record raises the count of its own type only. */
  lemma CountSnoc(log: seq<Message>, m: Message, kind: MessageType)
    ensures Count(log + [m], kind) == Count(log, kind) + (if m.kind == kind then 1 else 0)
  {
    assert (log + [m])[..|log|] == log;
  }

  lemma CountSingle(m: Message, kind: MessageType)
    ensures Count([m], kind) == (if m.kind == kind then 1 else 0)
  {
    assert [m][..0] == [];
  }

  /** Counters that agree with a log before and after records are appended
      grow by the counts of the appended records. */
  lemma CountersFollow(before: seq<Message>, added: seq<Message>, warnings0: nat, errors0: nat, warnings: nat, errors: nat)
    requires warnings0 == Count(before, Warning) && errors0 == Count(before, Error)
    requires warnings == Count(before + added, Warning) && errors == Count(before + added, Error)
    ensures warnings == warnings0 + Count(added, Warning) && errors == errors0 + Count(added, Error)
  {
    CountConcat(before, added, Warning);
    CountConcat(before, added, Error);
  }

  /** Every record is a warning or an error, so the two counts add up to the
      length of the log. */
  lemma {:induction false} CountsPartition(log: seq<Message>)
    ensures Count(log, Warning) + Count(log, Error) == |log|
    decreases |log|
  {
    if |log| > 0 {
      CountsPartition(log[..|log| - 1]);
    }
  }

  class StatusLogger {
    var messages: seq<Message>
    var warnings: nat
    var errors: nat

    /** The two counters always equal the number of records of each type. */
    ghost predicate Valid()
      reads this
    {
      warnings == Count(messages, MessageType.Warning) && errors == Count(messages, MessageType.Error)
    }

    constructor ()
      ensures Valid()
      ensures messages == [] && warnings == 0 && errors == 0
    {
      messages := [];
      warnings := 0;
      errors := 0;
    }

    /** Appends one warning record and bumps the warning counter only. */
    method Warning(message: string)
      requires Valid()
      modifies this
      ensures Valid()
      ensures messages == old(messages) + [Message(MessageType.Warning, message)]
      ensures warnings == old(warnings) + 1 && errors == old(errors)
    {
      warnings := warnings + 1;
      messages := messages + [Message(MessageType.Warning, message)];
      assert messages[..|messages| - 1] == old(messages);
    }

    /** Appends one error record and bumps the error counter only. */
    method Error(message: string)
      requires Valid()
      modifies this
      ensures Valid()
      ensures messages == old(messages) + [Message(MessageType.Error, message)]
      ensures errors == old(errors) + 1 && warnings == old(warnings)
    {
      errors := errors + 1;
      messages := messages + [Message(MessageType.Error, message)];
      assert messages[..|messages| - 1] == old(messages);
    }
  }
}
