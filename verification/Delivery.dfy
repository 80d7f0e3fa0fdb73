/** The bounded guard against delivering the same job twice. */
module Delivery {
  import opened Wrappers

  /** A control message: its type, and the job id of its payload if that is a string. */
  datatype Message = Message(messageType: string, jobId: Option<string>)

  datatype DeliveryError = UnsupportedMessageType | MissingJobId

  function JobIdOf(m: Message): Result<string, DeliveryError> {
    if m.messageType != "job.available" then Err(UnsupportedMessageType)
    else if m.jobId.GetOr("") == "" then Err(MissingJobId)
    else Ok(m.jobId.value)
  }

  /** The job a message announces, or what is wrong with it. */
  lemma JobIdExactly(m: Message)
    ensures JobIdOf(m) == Err(UnsupportedMessageType) <==> m.messageType != "job.available"
    ensures JobIdOf(m) == Err(MissingJobId) <==>
              m.messageType == "job.available" && (m.jobId == None || m.jobId == Some(""))
    ensures forall id :: JobIdOf(m) == Ok(id) <==> m.messageType == "job.available" && m.jobId == Some(id) && id != ""
  {
  }

  /** The last n of a history. */
  function LastOf(history: seq<string>, n: nat): seq<string> {
    if |history| <= n then history else history[|history| - n..]
  }

  predicate Fresh(history: seq<string>, capacity: nat, id: string) {
    id !in LastOf(history, capacity)
  }

  /** The accepted ids after one more message. */
  function AfterMessage(history: seq<string>, capacity: nat, m: Message): seq<string> {
    var id := JobIdOf(m);
    if id.Ok? && Fresh(history, capacity, id.value) then history + [id.value] else history
  }

  /** An id is fresh exactly when none of the last `capacity` acceptances was of it. */
  lemma FreshExactly(history: seq<string>, capacity: nat, id: string)
    ensures Fresh(history, capacity, id) <==>
            forall i :: 0 <= i < |history| && |history| - i <= capacity ==> history[i] != id
  {
    var last := LastOf(history, capacity);
    var from := |history| - |last|;
    assert forall i :: from <= i < |history| ==> history[i] == last[i - from];
  }

  predicate Distinct(s: seq<string>) {
    forall i, j :: 0 <= i < j < |s| ==> s[i] != s[j]
  }

  lemma {:induction false} DistinctSize(s: seq<string>)
    requires Distinct(s)
    ensures |Members(s)| == |s|
  {
    if s != [] {
      var front, last := s[..|s| - 1], s[|s| - 1];
      DistinctSize(front);
      assert s == front + [last];
      assert Members(s) == Members(front) + {last};
    }
  }

  class DeliveryDeduplicator {
    const capacity: nat
    var jobIds: set<string>
    var insertionOrder: seq<string>
    /** Every id accepted so far, in order. */
    ghost var history: seq<string>

    /** The set and the queue hold the same distinct ids: the last accepted ones, up to the capacity. */
    ghost predicate Valid()
      reads this
    {
      && capacity > 0 && insertionOrder == LastOf(history, capacity) && Distinct(insertionOrder)
      && jobIds == Members(insertionOrder)
    }

    constructor (capacity: nat)
      requires capacity > 0
      ensures Valid() && history == [] && this.capacity == capacity
    {
      this.capacity, jobIds, insertionOrder, history := capacity, {}, [], [];
    }

    method Accept(message: Message) returns (r: Result<bool, DeliveryError>)
      requires Valid()
      modifies this
      ensures Valid() && |jobIds| == |insertionOrder| <= capacity
      ensures JobIdOf(message).Err? ==> r == Err(JobIdOf(message).error) && history == old(history)
      ensures JobIdOf(message).Ok? ==>
                var id := JobIdOf(message).value;
                && r == Ok(Fresh(old(history), capacity, id))
                && history == AfterMessage(old(history), capacity, message)
    {
      DistinctSize(insertionOrder);
      if message.messageType != "job.available" {
        return Err(UnsupportedMessageType);
      }
      if message.jobId.None? || message.jobId.value == "" {
        return Err(MissingJobId);
      }
      var jobId := message.jobId.value;
      if jobId in jobIds {
        return Ok(false);
      }
      LastOfSnoc(history, jobId, capacity);
      if |jobIds| == capacity {
        PopMembers(insertionOrder);
        var evicted := insertionOrder[0];
        insertionOrder := insertionOrder[1..];
        jobIds := jobIds - {evicted};
      }
      PushMembers(insertionOrder, jobId);
      jobIds := jobIds + {jobId};
      insertionOrder := insertionOrder + [jobId];
      history := history + [jobId];
      DistinctSize(insertionOrder);
      r := Ok(true);
    }
  }

  lemma LastOfSnoc(history: seq<string>, id: string, n: nat)
    requires n > 0
    ensures LastOf(history + [id], n)
            == (if |LastOf(history, n)| == n then LastOf(history, n)[1..] else LastOf(history, n)) + [id]
  {
  }

  function Members(s: seq<string>): set<string> {
    set id | id in s
  }

  lemma PopMembers(s: seq<string>)
    requires s != [] && Distinct(s)
    ensures Members(s[1..]) == Members(s) - {s[0]} && Distinct(s[1..])
  {
    assert s == [s[0]] + s[1..];
  }

  lemma PushMembers(s: seq<string>, id: string)
    requires Distinct(s) && id !in s
    ensures Members(s + [id]) == Members(s) + {id} && Distinct(s + [id])
  {
  }

  // ----- whole histories -----

  /** The ids accepted from a run of messages, after those already accepted. */
  function Accepted(history: seq<string>, capacity: nat, messages: seq<Message>): seq<string>
    decreases |messages|
  {
    if messages == [] then history else Accepted(AfterMessage(history, capacity, messages[0]), capacity, messages[1..])
  }

  /** Two acceptances of one id lie more than the capacity apart. */
  predicate Spaced(history: seq<string>, capacity: nat) {
    forall i, k :: 0 <= i < k < |history| && history[i] == history[k] ==> k - i > capacity
  }

  lemma AmongLast(history: seq<string>, n: nat, i: nat)
    requires i < |history| && |history| - i <= n
    ensures history[i] in LastOf(history, n)
  {
    var last := LastOf(history, n);
    assert last[i - (|history| - |last|)] == history[i];
  }

  lemma FreshKeepsSpaced(history: seq<string>, capacity: nat, id: string)
    requires Spaced(history, capacity) && Fresh(history, capacity, id)
    ensures Spaced(history + [id], capacity)
  {
    forall i | 0 <= i < |history| && |history| - i <= capacity
      ensures history[i] in LastOf(history, capacity)
    {
      AmongLast(history, capacity, i);
    }
  }

  /** Over any run of messages, an id is delivered again only after more than `capacity` other
    * acceptances; a guard never filled delivers each id once. */
  lemma {:induction false} DeliveredOncePerCapacity(history: seq<string>, capacity: nat, messages: seq<Message>)
    requires Spaced(history, capacity)
    ensures Spaced(Accepted(history, capacity, messages), capacity)
    ensures |Accepted(history, capacity, messages)| <= capacity + 1 ==> Distinct(Accepted(history, capacity, messages))
    decreases |messages|
  {
    if messages != [] {
      var id := JobIdOf(messages[0]);
      if id.Ok? && Fresh(history, capacity, id.value) {
        FreshKeepsSpaced(history, capacity, id.value);
      }
      DeliveredOncePerCapacity(AfterMessage(history, capacity, messages[0]), capacity, messages[1..]);
    }
  }

  lemma {:induction false} AcceptedGrows(history: seq<string>, capacity: nat, messages: seq<Message>)
    ensures history <= Accepted(history, capacity, messages)
    decreases |messages|
  {
    if messages != [] {
      AcceptedGrows(AfterMessage(history, capacity, messages[0]), capacity, messages[1..]);
    }
  }

  lemma DeliveredNow(history: seq<string>, capacity: nat, m: Message)
    requires JobIdOf(m).Ok?
    ensures JobIdOf(m).value in AfterMessage(history, capacity, m)
  {
    var last := LastOf(history, capacity);
    assert forall x <- last :: x in history;
  }

  /** No job is lost: every well-formed message's job is among the accepted ones. */
  lemma {:induction false} EveryJobDelivered(history: seq<string>, capacity: nat, messages: seq<Message>, k: nat)
    requires k < |messages| && JobIdOf(messages[k]).Ok?
    ensures JobIdOf(messages[k]).value in Accepted(history, capacity, messages)
    decreases |messages|
  {
    var next := AfterMessage(history, capacity, messages[0]);
    if k == 0 {
      DeliveredNow(history, capacity, messages[0]);
      AcceptedGrows(next, capacity, messages[1..]);
      PrefixMembers(next, Accepted(next, capacity, messages[1..]), JobIdOf(messages[0]).value);
    } else {
      EveryJobDelivered(next, capacity, messages[1..], k - 1);
    }
  }

  lemma PrefixMembers(a: seq<string>, b: seq<string>, x: string)
    requires a <= b && x in a
    ensures x in b
  {
    var i :| 0 <= i < |a| && a[i] == x;
    assert b[i] == x;
  }
}
