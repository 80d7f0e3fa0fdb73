/** Erasing, exporting and verifying the stored objects of one subject, page by page. */
module StorageLifecycle {
  import opened Wrappers
  import opened StringOrder
  import opened LikePattern
  import SupabaseMapping

  const BATCH := 1000

  /** A bucket's objects are rows with a unique name, listed by name. */
  predicate Sorted(names: seq<string>) {
    forall i, j :: 0 <= i < j < |names| ==> Less(names[i], names[j])
  }

  predicate Wanted(name: string, pattern: string, after: string) {
    Like(name, pattern) && Less(after, name)
  }

  /** The rows of the page query without its limit. */
  function Matching(objects: seq<string>, pattern: string, after: string): seq<string> {
    if objects == [] then []
    else if Wanted(objects[0], pattern, after) then [objects[0]] + Matching(objects[1..], pattern, after)
    else Matching(objects[1..], pattern, after)
  }

  function Page(objects: seq<string>, pattern: string, after: string): seq<string> {
    var all := Matching(objects, pattern, after);
    if |all| <= BATCH then all else all[..BATCH]
  }

  function Without(objects: seq<string>, names: seq<string>): seq<string> {
    if objects == [] then []
    else if objects[0] in names then Without(objects[1..], names)
    else [objects[0]] + Without(objects[1..], names)
  }

  /** The rows the verification and the discovery count. */
  function Selected(objects: seq<string>, pattern: string): seq<string> {
    if objects == [] then []
    else if Like(objects[0], pattern) then [objects[0]] + Selected(objects[1..], pattern)
    else Selected(objects[1..], pattern)
  }

  // ----- listings -----

  lemma {:induction false} SameMembersSameList(a: seq<string>, b: seq<string>)
    requires Sorted(a) && Sorted(b)
    requires forall n :: n in a <==> n in b
    ensures a == b
  {
    EmptyIff(a);
    EmptyIff(b);
    if a != [] {
      HeadsAgree(a, b);
      TailMembers(a);
      TailMembers(b);
      SameMembersSameList(a[1..], b[1..]);
      assert a == [a[0]] + a[1..] && b == [b[0]] + b[1..];
    }
  }

  lemma EmptyIff(a: seq<string>)
    ensures a == [] <==> forall n :: n !in a
  {
    if a != [] {
      assert a[0] in a;
    }
  }

  lemma TailMembers(a: seq<string>)
    requires Sorted(a) && a != []
    ensures Sorted(a[1..]) && forall n :: n in a[1..] <==> n in a && n != a[0]
  {
    LessTrichotomy(a[0], a[0]);
    forall n | n in a && n != a[0]
      ensures n in a[1..]
    {
      var i :| 0 <= i < |a| && a[i] == n;
      assert a[1..][i - 1] == n;
    }
  }

  lemma HeadsAgree(a: seq<string>, b: seq<string>)
    requires Sorted(a) && Sorted(b) && a != [] && b != []
    requires forall n :: n in a <==> n in b
    ensures a[0] == b[0]
  {
    assert a[0] in b && b[0] in a;
    var i :| 0 <= i < |b| && b[i] == a[0];
    var j :| 0 <= j < |a| && a[j] == b[0];
    LessTrichotomy(a[0], b[0]);
  }

  lemma {:induction false} MatchingMembers(objects: seq<string>, pattern: string, after: string)
    requires Sorted(objects)
    ensures Sorted(Matching(objects, pattern, after))
    ensures forall n :: n in Matching(objects, pattern, after) <==> n in objects && Wanted(n, pattern, after)
  {
    if objects != [] {
      MatchingMembers(objects[1..], pattern, after);
      assert objects == [objects[0]] + objects[1..];
      forall n | n in objects[1..]
        ensures Less(objects[0], n)
      {
      }
    }
  }

  lemma {:induction false} WithoutMembers(objects: seq<string>, names: seq<string>)
    requires Sorted(objects)
    ensures Sorted(Without(objects, names))
    ensures forall n :: n in Without(objects, names) <==> n in objects && n !in names
  {
    if objects != [] {
      WithoutMembers(objects[1..], names);
      assert objects == [objects[0]] + objects[1..];
      forall n | n in objects[1..]
        ensures Less(objects[0], n)
      {
      }
    }
  }

  lemma {:induction false} SelectedMembers(objects: seq<string>, pattern: string)
    requires Sorted(objects)
    ensures Sorted(Selected(objects, pattern))
    ensures forall n :: n in Selected(objects, pattern) <==> n in objects && Like(n, pattern)
  {
    if objects != [] {
      SelectedMembers(objects[1..], pattern);
      assert objects == [objects[0]] + objects[1..];
      forall n | n in objects[1..]
        ensures Less(objects[0], n)
      {
      }
    }
  }

  /** The members of a sorted list past its first k are those greater than the k-th. */
  lemma SuffixMembers(a: seq<string>, k: nat)
    requires Sorted(a) && 0 < k <= |a|
    ensures Sorted(a[k..]) && forall n :: n in a[k..] <==> n in a && Less(a[k - 1], n)
    ensures forall n :: n in a[..k] <==> n in a && !Less(a[k - 1], n)
  {
    forall n | n in a
      ensures n in a[k..] <==> Less(a[k - 1], n)
      ensures n in a[..k] <==> !Less(a[k - 1], n)
    {
      var i :| 0 <= i < |a| && a[i] == n;
      LessTrichotomy(a[k - 1], n);
      if i >= k {
        assert a[k..][i - k] == n;
        NotBefore(a, k, i);
      } else {
        assert a[..k][i] == n;
        NotAfter(a, k, i);
      }
    }
  }

  lemma NotBefore(a: seq<string>, k: nat, i: nat)
    requires Sorted(a) && 0 < k <= i < |a|
    ensures a[i] !in a[..k] && Less(a[k - 1], a[i])
  {
    forall j | 0 <= j < k
      ensures a[j] != a[i]
    {
      LessTrichotomy(a[j], a[i]);
    }
  }

  lemma NotAfter(a: seq<string>, k: nat, i: nat)
    requires Sorted(a) && i < k <= |a|
    ensures a[i] !in a[k..] && !Less(a[k - 1], a[i])
  {
    LessTrichotomy(a[i], a[k - 1]);
    forall j | k <= j < |a|
      ensures a[j] != a[i]
    {
      LessTrichotomy(a[i], a[j]);
    }
  }

  /** The next page starts where this one ended, whichever of this one's rows are gone. */
  lemma NextPage(objects: seq<string>, pattern: string, after: string, gone: seq<string>)
    requires Sorted(objects) && Page(objects, pattern, after) != []
    requires forall n <- gone :: n in Page(objects, pattern, after)
    ensures var left := Without(objects, gone);
            var page := Page(objects, pattern, after);
            && Sorted(left)
            && Matching(left, pattern, page[|page| - 1]) == Matching(objects, pattern, after)[|page|..]
  {
    var all, page := Matching(objects, pattern, after), Page(objects, pattern, after);
    var last := page[|page| - 1];
    MatchingMembers(objects, pattern, after);
    var left := Without(objects, gone);
    WithoutMembers(objects, gone);
    SuffixMembers(all, |page|);
    assert page == all[..|page|];
    MatchingMembers(left, pattern, last);
    assert last in all;
    forall n
      ensures n in Matching(left, pattern, last) <==> n in all[|page|..]
    {
      if Less(last, n) {
        LessTransitive(after, last, n);
      }
    }
    SameMembersSameList(Matching(left, pattern, last), all[|page|..]);
  }

  // ----- erasing -----

  /** The storage service's answer to one delete call, and the names it has removed by then; only
    * names it was asked for count. */
  datatype Reply = Answered(status: nat, removed: set<string>) | Lost(removed: set<string>)

  /** What one turn of the loop meets: whether its page query is answered, and the reply to its delete. */
  datatype Turn = Turn(queried: bool, reply: Reply)

  datatype EraseError = Remote | Uncertain | PermissionDenied | RateLimited | InvalidResponse

  predicate Success(r: Reply) {
    r.Answered? && 200 <= r.status < 300
  }

  /** Any success, and also not found: the objects may already be gone. */
  predicate Accepted(r: Reply) {
    Success(r) || (r.Answered? && r.status == 404)
  }

  function ErrorOf(r: Reply): EraseError {
    if r.Lost? then Uncertain
    else if r.status in {401, 403} then PermissionDenied
    else if r.status == 429 then RateLimited
    else if 500 <= r.status < 600 then Uncertain
    else InvalidResponse
  }

  /** One delete call to the service, and its answer. */
  datatype Call = Call(names: seq<string>, reply: Reply)

  /** One erase: the objects left, the delete calls made, and how it failed. */
  datatype Erasure = Erasure(objects: seq<string>, calls: seq<Call>, error: Option<EraseError>)

  /** The delete calls for a list of names, a batch at a time, until one fails or the list ends; the
    * i-th page is asked for and deleted in turns(i). */
  function DeleteCalls(names: seq<string>, turns: nat -> Turn, i: nat): (seq<Call>, Option<EraseError>)
    decreases |names|
  {
    var reply := turns(i).reply;
    if !turns(i).queried then ([], Some(Remote))
    else if names == [] then ([], None)
    else if |names| < BATCH || !Accepted(reply) then
      var batch := if |names| < BATCH then names else names[..BATCH];
      ([Call(batch, reply)], if Accepted(reply) then None else Some(ErrorOf(reply)))
    else
      var (calls, error) := DeleteCalls(names[BATCH..], turns, i + 1);
      ([Call(names[..BATCH], reply)] + calls, error)
  }

  /** An erase as one step: list the names, delete them in batches. */
  function Erase(objects: seq<string>, pattern: string, turns: nat -> Turn): Erasure {
    var (calls, error) := DeleteCalls(Matching(objects, pattern, ""), turns, 0);
    Erasure(Without(objects, Removed(calls)), calls, error)
  }

  /** All names asked to be deleted, call by call. */
  function Requested(calls: seq<Call>): seq<string> {
    if calls == [] then [] else calls[0].names + Requested(calls[1..])
  }

  function Among(names: seq<string>, chosen: set<string>): (r: seq<string>)
    ensures forall n :: n in r <==> n in names && n in chosen
  {
    if names == [] then []
    else (if names[0] in chosen then [names[0]] else []) + Among(names[1..], chosen)
  }

  /** The names one call takes away: any part of its batch. */
  function Taken(call: Call): seq<string> {
    Among(call.names, call.reply.removed)
  }

  /** The names taken away, call by call. */
  function Removed(calls: seq<Call>): seq<string> {
    if calls == [] then [] else Taken(calls[0]) + Removed(calls[1..])
  }

  lemma RequestedFirst(call: Call, calls: seq<Call>)
    ensures Requested([call] + calls) == call.names + Requested(calls)
    ensures Removed([call] + calls) == Taken(call) + Removed(calls)
  {
    assert ([call] + calls)[1..] == calls;
  }

  lemma {:induction false} WithoutTwice(objects: seq<string>, a: seq<string>, b: seq<string>)
    ensures Without(Without(objects, a), b) == Without(objects, a + b)
  {
    if objects != [] {
      WithoutTwice(objects[1..], a, b);
    }
  }

  lemma {:induction false} WithoutNone(objects: seq<string>)
    ensures Without(objects, []) == objects
  {
    if objects != [] {
      WithoutNone(objects[1..]);
    }
  }

  /** The last delete call of a list. */
  lemma LastCall(objects: seq<string>, call: Call)
    ensures Without(objects, Removed([call])) == Without(objects, Taken(call)) && Requested([call]) == call.names
  {
    RequestedFirst(call, []);
    assert [call] + [] == [call];
    assert Taken(call) + [] == Taken(call) && call.names + [] == call.names;
  }

  /** One turn of the paging loop that goes on. */
  lemma PageTurn(objects: seq<string>, pattern: string, after: string, turns: nat -> Turn, i: nat)
    requires Sorted(objects) && |Page(objects, pattern, after)| == BATCH
    requires turns(i).queried && Accepted(turns(i).reply)
    ensures var page := Page(objects, pattern, after);
            var left := Without(objects, Taken(Call(page, turns(i).reply)));
            var rest := DeleteCalls(Matching(objects, pattern, after), turns, i);
            var next := DeleteCalls(Matching(left, pattern, page[|page| - 1]), turns, i + 1);
            && Sorted(left)
            && |Matching(left, pattern, page[|page| - 1])| < |Matching(objects, pattern, after)|
            && rest.1 == next.1
            && Without(objects, Removed(rest.0)) == Without(left, Removed(next.0))
            && |Requested(rest.0)| == |page| + |Requested(next.0)|
  {
    var all, page := Matching(objects, pattern, after), Page(objects, pattern, after);
    var call := Call(page, turns(i).reply);
    var (calls, error) := DeleteCalls(all[BATCH..], turns, i + 1);
    assert page == all[..BATCH];
    assert DeleteCalls(all, turns, i) == ([call] + calls, error);
    NextPage(objects, pattern, after, Taken(call));
    RequestedFirst(call, calls);
    WithoutTwice(objects, Taken(call), Removed(calls));
  }

  /** The last turn. */
  lemma PageEnd(objects: seq<string>, pattern: string, after: string, turns: nat -> Turn, i: nat)
    requires Page(objects, pattern, after) != [] && turns(i).queried
    requires |Page(objects, pattern, after)| < BATCH || !Accepted(turns(i).reply)
    ensures var page, reply := Page(objects, pattern, after), turns(i).reply;
            var rest := DeleteCalls(Matching(objects, pattern, after), turns, i);
            && rest.1 == (if Accepted(reply) then None else Some(ErrorOf(reply)))
            && Without(objects, Removed(rest.0)) == Without(objects, Taken(Call(page, reply)))
            && |Requested(rest.0)| == |page|
  {
    LastCall(objects, Call(Page(objects, pattern, after), turns(i).reply));
  }

  class Bucket {
    var objects: seq<string>

    constructor (objects: seq<string>)
      ensures this.objects == objects
    {
      this.objects := objects;
    }

    method Delete(names: seq<string>, reply: Reply)
      modifies this
      ensures objects == Without(old(objects), Taken(Call(names, reply)))
    {
      objects := Without(objects, Among(names, reply.removed));
    }

    method EraseStorage(prefix: string, turns: nat -> Turn) returns (affected: Result<nat, EraseError>)
      requires Sorted(objects)
      modifies this
      ensures var e := Erase(old(objects), LikePrefix(prefix), turns);
              && objects == e.objects
              && affected == if e.error.Some? then Err(e.error.value) else Ok(|Requested(e.calls)|)
    {
      var pattern := EscapeLikePrefix(prefix);
      affected := EraseMatching(pattern, turns);
    }

    /** The paging loop deletes as it goes, and each page starts after the last name of the one before;
      * its result is that of listing all names first. */
    method EraseMatching(pattern: string, turns: nat -> Turn) returns (affected: Result<nat, EraseError>)
      requires Sorted(objects)
      modifies this
      ensures var e := Erase(old(objects), pattern, turns);
              && objects == e.objects
              && affected == if e.error.Some? then Err(e.error.value) else Ok(|Requested(e.calls)|)
    {
      var after, affectedCount, i := "", 0, 0;
      ghost var whole := Erase(objects, pattern, turns);
      ghost var rest := DeleteCalls(Matching(objects, pattern, after), turns, 0);
      while true
        invariant Sorted(objects) && rest == DeleteCalls(Matching(objects, pattern, after), turns, i)
        invariant whole.objects == Without(objects, Removed(rest.0)) && whole.error == rest.1
        invariant |Requested(whole.calls)| == affectedCount + |Requested(rest.0)|
        decreases |Matching(objects, pattern, after)|
      {
        var turn := turns(i);
        if !turn.queried {
          WithoutNone(objects);
          return Err(Remote);
        }
        var names := Page(objects, pattern, after);
        if names == [] {
          WithoutNone(objects);
          break;
        }
        var reply := turn.reply;
        if |names| == BATCH && Accepted(reply) {
          PageTurn(objects, pattern, after, turns, i);
        } else {
          PageEnd(objects, pattern, after, turns, i);
        }
        after := names[|names| - 1];
        Delete(names, reply);
        if !Accepted(reply) {
          return Err(ErrorOf(reply));
        }
        affectedCount := affectedCount + |names|;
        if |names| < BATCH {
          break;
        }
        i := i + 1;
        rest := DeleteCalls(Matching(objects, pattern, after), turns, i);
      }
      affected := Ok(affectedCount);
    }

    method DownloadPage(names: seq<string>, start: nat, downloads: string -> bool)
      returns (files: seq<(string, nat)>, ok: bool)
      ensures Downloaded(files, names, start, downloads)
      ensures ok <==> |files| == |names|
      ensures !ok ==> !downloads(names[|files|])
    {
      files := [];
      while |files| < |names|
        invariant Downloaded(files, names, start, downloads)
      {
        var name := names[|files|];
        if !downloads(name) {
          return files, false;
        }
        files := files + [(name, start + |files| + 1)];
      }
      ok := true;
    }

    /** The downloads of an export, in order, each with its number. `downloads` says which succeed, and
      * `queried` which page queries are answered. */
    method ExportStorage(prefix: string, queried: nat -> bool, downloads: string -> bool)
      returns (files: seq<(string, nat)>, ok: bool)
      requires Sorted(objects)
      ensures var all := Matching(objects, LikePrefix(prefix), "");
              && Downloaded(files, all, 0, downloads)
              && (forall p :: 0 <= p && p * BATCH < |files| ==> queried(p))
              && (ok <==> |files| == |all| && queried(|all| / BATCH))
              && (!ok ==> if queried(|files| / BATCH) then |files| < |all| && !downloads(all[|files|])
                          else |files| % BATCH == 0)
    {
      var pattern := EscapeLikePrefix(prefix);
      var after, page := "", 0;
      files := [];
      ghost var all := Matching(objects, pattern, "");
      while true
        invariant Downloaded(files, all, 0, downloads) && |files| == page * BATCH
        invariant Matching(objects, pattern, after) == all[|files|..]
        invariant forall p :: 0 <= p < page ==> queried(p)
        decreases |all| - |files|
      {
        if !queried(page) {
          return files, false;
        }
        var names := Page(objects, pattern, after);
        if names == [] {
          break;
        }
        WithoutNone(objects);
        NextPage(objects, pattern, after, []);
        after := names[|names| - 1];
        var downloaded, complete := DownloadPage(names, |files|, downloads);
        PageDownloaded(files, downloaded, all, names, downloads);
        files := files + downloaded;
        if !complete {
          return files, false;
        }
        if |names| < BATCH {
          break;
        }
        page := page + 1;
      }
      ok := true;
    }
  }

  /** The first of the names, each with its number, all of them downloaded. */
  predicate Downloaded(files: seq<(string, nat)>, names: seq<string>, start: nat, downloads: string -> bool) {
    && |files| <= |names|
    && forall k :: 0 <= k < |files| ==> files[k] == (names[k], start + k + 1) && downloads(names[k])
  }

  lemma PageDownloaded(
      files: seq<(string, nat)>, page: seq<(string, nat)>, all: seq<string>, names: seq<string>, downloads: string -> bool)
    requires Downloaded(files, all, 0, downloads) && Downloaded(page, names, |files|, downloads)
    requires names <= all[|files|..]
    ensures Downloaded(files + page, all, 0, downloads)
    ensures |page| < |names| ==> names[|page|] == all[|files + page|]
    ensures all[|files|..][|page|..] == all[|files + page|..]
  {
    assert forall k :: 0 <= k < |names| ==> names[k] == all[|files|..][k] == all[|files| + k];
  }

  ghost predicate IsReply(reply: Reply, turns: nat -> Turn) {
    exists i :: turns(i).reply == reply
  }

  /** What an answer means: a success and a not found go on; of the others each status has its error, and no
    * answer is uncertain. */
  lemma ReplyMeans(r: Reply)
    ensures Accepted(r) <==> r.Answered? && (200 <= r.status <= 299 || r.status == 404)
    ensures !Accepted(r) ==>
              && (ErrorOf(r) == PermissionDenied <==> r.Answered? && (r.status == 401 || r.status == 403))
              && (ErrorOf(r) == RateLimited <==> r.Answered? && r.status == 429)
              && (ErrorOf(r) == Uncertain <==> r.Lost? || 500 <= r.status <= 599)
              && ErrorOf(r) != Remote
  {
  }

  /** The delete calls cut the names in order, each name in one call only, and cover them all when none
    * fails. */
  lemma {:induction false} CallsCoverOnce(names: seq<string>, turns: nat -> Turn, i: nat)
    ensures var (calls, error) := DeleteCalls(names, turns, i);
            && Requested(calls) <= names
            && (error.None? ==> Requested(calls) == names && forall c <- calls :: Accepted(c.reply))
            && (forall c <- calls :: 0 < |c.names| <= 1000 && IsReply(c.reply, turns))
    decreases |names|
  {
    var reply := turns(i).reply;
    if names != [] && turns(i).queried {
      if |names| < BATCH || !Accepted(reply) {
        var call := DeleteCalls(names, turns, i).0[0];
        RequestedFirst(call, []);
        assert [call] + [] == [call];
        assert call.names + [] == call.names;
      } else {
        CallsCoverOnce(names[BATCH..], turns, i + 1);
        RequestedFirst(Call(names[..BATCH], reply), DeleteCalls(names[BATCH..], turns, i + 1).0);
        assert names == names[..BATCH] + names[BATCH..];
      }
    }
  }

  /** One call a turn, from turn i on. */
  predicate InTurn(calls: seq<Call>, turns: nat -> Turn, i: nat)
    decreases |calls|
  {
    calls == [] || (turns(i).queried && calls[0].reply == turns(i).reply && InTurn(calls[1..], turns, i + 1))
  }

  /** All calls but the last are accepted and name a thousand objects. */
  predicate FullButLast(calls: seq<Call>) {
    forall k :: 0 <= k < |calls| - 1 ==> |calls[k].names| == 1000 && Accepted(calls[k].reply)
  }

  lemma FirstInTurn(call: Call, calls: seq<Call>, turns: nat -> Turn, i: nat)
    requires turns(i).queried && call.reply == turns(i).reply && InTurn(calls, turns, i + 1)
    requires |call.names| == 1000 && Accepted(call.reply) && FullButLast(calls)
    ensures InTurn([call] + calls, turns, i) && FullButLast([call] + calls)
  {
    assert ([call] + calls)[1..] == calls;
  }

  /** The last call of an erase, or the query after it, decides how it ends. */
  predicate EndsWith(calls: seq<Call>, error: Option<EraseError>, turns: nat -> Turn, i: nat) {
    match error
    case None => calls == [] || Accepted(calls[|calls| - 1].reply)
    case Some(e) =>
      if calls != [] && !Accepted(calls[|calls| - 1].reply) then e == ErrorOf(calls[|calls| - 1].reply)
      else !turns(i + |calls|).queried && e == Remote
  }

  lemma EndsLater(call: Call, calls: seq<Call>, error: Option<EraseError>, turns: nat -> Turn, i: nat)
    requires Accepted(call.reply) && EndsWith(calls, error, turns, i + 1)
    ensures EndsWith([call] + calls, error, turns, i)
  {
    assert i + 1 + |calls| == i + |[call] + calls|;
    assert calls != [] ==> ([call] + calls)[|calls|] == calls[|calls| - 1];
  }

  lemma LastTurn(names: seq<string>, turns: nat -> Turn, i: nat)
    requires !turns(i).queried || |names| < BATCH || !Accepted(turns(i).reply)
    ensures var (calls, error) := DeleteCalls(names, turns, i);
            InTurn(calls, turns, i) && FullButLast(calls) && EndsWith(calls, error, turns, i)
  {
    var calls := DeleteCalls(names, turns, i).0;
    assert calls != [] ==> calls[1..] == [];
    assert |calls| == 0 ==> i + |calls| == i;
  }

  /** The calls of an erase are made in turn, and it fails with the error of its last call, or because the
    * query after its last call is not answered. */
  lemma {:induction false} CallsInTurn(names: seq<string>, turns: nat -> Turn, i: nat)
    ensures var (calls, error) := DeleteCalls(names, turns, i);
            InTurn(calls, turns, i) && FullButLast(calls) && EndsWith(calls, error, turns, i)
    decreases |names|
  {
    var reply := turns(i).reply;
    if turns(i).queried && |names| >= BATCH && Accepted(reply) {
      var (rest, error) := DeleteCalls(names[BATCH..], turns, i + 1);
      var call := Call(names[..BATCH], reply);
      CallsInTurn(names[BATCH..], turns, i + 1);
      FirstInTurn(call, rest, turns, i);
      EndsLater(call, rest, error, turns, i);
      assert DeleteCalls(names, turns, i) == ([call] + rest, error);
    } else {
      LastTurn(names, turns, i);
    }
  }

  /** The service removed all it was asked for in one call. */
  predicate AllTaken(c: Call) {
    forall n <- c.names :: n in c.reply.removed
  }

  lemma {:induction false} RemovedMembers(calls: seq<Call>)
    ensures forall n :: n in Removed(calls) ==> n in Requested(calls)
    ensures (forall c <- calls :: AllTaken(c)) ==> forall n :: n in Requested(calls) ==> n in Removed(calls)
  {
    if calls != [] {
      RemovedMembers(calls[1..]);
      assert calls[0] in calls;
    }
  }

  /** A name its own call did not remove stays behind, because no other call names it. */
  lemma {:induction false} KeptNames(calls: seq<Call>, c: Call, n: string)
    requires c in calls && n in c.names && n !in c.reply.removed && Sorted(Requested(calls))
    ensures n in Requested(calls) && n !in Removed(calls)
  {
    var first, rest := calls[0], calls[1..];
    assert Requested(calls) == first.names + Requested(rest);
    SortedParts(first.names, Requested(rest));
    RemovedMembers(rest);
    DisjointParts(first.names, Requested(rest), n);
    if c != first {
      assert c in rest;
      KeptNames(rest, c, n);
    }
  }

  lemma SortedParts(a: seq<string>, b: seq<string>)
    requires Sorted(a + b)
    ensures Sorted(a) && Sorted(b)
  {
    assert forall i :: 0 <= i < |a| ==> a[i] == (a + b)[i];
    assert forall i :: 0 <= i < |b| ==> b[i] == (a + b)[|a| + i];
  }

  lemma DisjointParts(a: seq<string>, b: seq<string>, n: string)
    requires Sorted(a + b)
    ensures !(n in a && n in b)
  {
    if n in a && n in b {
      var i :| 0 <= i < |a| && a[i] == n;
      var j :| 0 <= j < |b| && b[j] == n;
      assert (a + b)[i] == n && (a + b)[|a| + j] == n;
      LessTrichotomy(n, n);
      assert false;
    }
  }

  lemma WantedAreSelected(objects: seq<string>, prefix: string)
    requires Sorted(objects) && prefix != ""
    ensures Matching(objects, LikePrefix(prefix), "") == Selected(objects, LikePrefix(prefix))
    ensures forall n :: n in Selected(objects, LikePrefix(prefix)) <==> n in objects && prefix <= n
  {
    var pattern := LikePrefix(prefix);
    MatchingMembers(objects, pattern, "");
    SelectedMembers(objects, pattern);
    forall n
      ensures Like(n, pattern) <==> prefix <= n
    {
      LikePrefixExact(n, prefix);
    }
    SameMembersSameList(Matching(objects, pattern, ""), Selected(objects, pattern));
  }

  // ----- verifying -----

  datatype Verification = Verification(satisfied: bool, remaining: nat)

  function VerifyStorage(objects: seq<string>, prefix: string): Verification {
    var remaining := |Selected(objects, LikePrefix(prefix))|;
    Verification(remaining == 0, remaining)
  }

  /** The verification counts the subject's objects. */
  lemma VerifyCounts(objects: seq<string>, prefix: string)
    requires Sorted(objects)
    ensures var v := VerifyStorage(objects, prefix);
            && v.remaining == |set n | n in objects && prefix <= n|
            && (v.satisfied <==> forall n <- objects :: !(prefix <= n))
  {
    var names := Selected(objects, LikePrefix(prefix));
    SelectedMembers(objects, LikePrefix(prefix));
    forall n
      ensures n in names <==> n in objects && prefix <= n
    {
      LikePrefixExact(n, prefix);
    }
    SortedSize(names);
    assert (set n | n in names) == set n | n in objects && prefix <= n;
    EmptyIff(names);
  }

  lemma {:induction false} SortedSize(names: seq<string>)
    requires Sorted(names)
    ensures |set n | n in names| == |names|
  {
    if names != [] {
      TailMembers(names);
      SortedSize(names[1..]);
      assert (set n | n in names) == (set n | n in names[1..]) + {names[0]};
    }
  }

  /** An erase that succeeds has asked for exactly the subject's objects. Of these it leaves exactly the
    * ones the service did not remove, and it touches no other object. So the verification is satisfied
    * exactly when the removed names cover the requested ones, that is, when each call removed all of
    * its own. */
  lemma EraseThenVerify(objects: seq<string>, prefix: string, turns: nat -> Turn)
    requires Sorted(objects) && prefix != ""
    requires Erase(objects, LikePrefix(prefix), turns).error.None?
    ensures var e := Erase(objects, LikePrefix(prefix), turns);
            && Sorted(e.objects)
            && |Requested(e.calls)| == VerifyStorage(objects, prefix).remaining
            && (forall n :: n in Requested(e.calls) <==> n in objects && prefix <= n)
            && (forall n :: n in e.objects <==> n in objects && n !in Removed(e.calls))
            && (forall n :: n in objects && !(prefix <= n) ==> n in e.objects)
            && (VerifyStorage(e.objects, prefix).satisfied <==> forall n :: n in Requested(e.calls) ==> n in Removed(e.calls))
            && (VerifyStorage(e.objects, prefix).satisfied <==> forall c <- e.calls :: AllTaken(c))
  {
    var pattern := LikePrefix(prefix);
    var e := Erase(objects, pattern, turns);
    CallsCoverOnce(Matching(objects, pattern, ""), turns, 0);
    WithoutMembers(objects, Removed(e.calls));
    WantedAreSelected(objects, prefix);
    WantedAreSelected(e.objects, prefix);
    RemovedMembers(e.calls);
    MatchingMembers(objects, pattern, "");
    EmptyIff(Selected(e.objects, pattern));
    CoveredByEach(e.calls);
  }

  lemma CoveredByEach(calls: seq<Call>)
    requires Sorted(Requested(calls))
    ensures (forall n :: n in Requested(calls) ==> n in Removed(calls)) <==> forall c <- calls :: AllTaken(c)
  {
    RemovedMembers(calls);
    if c :| c in calls && !AllTaken(c) {
      var n :| n in c.names && n !in c.reply.removed;
      KeptNames(calls, c, n);
    }
  }

  /** Whatever an erase meets, failing or not, it removes what the service removed of what it was asked for,
    * which is the subject's, and leaves all else. */
  lemma EraseLeaves(objects: seq<string>, prefix: string, turns: nat -> Turn)
    requires Sorted(objects)
    ensures var e := Erase(objects, LikePrefix(prefix), turns);
            && Sorted(e.objects)
            && (forall n :: n in e.objects <==>
                  n in objects && forall c <- e.calls :: !(n in c.names && n in c.reply.removed))
            && (forall c <- e.calls, n <- c.names :: n in objects && prefix <= n)
  {
    var pattern := LikePrefix(prefix);
    var e := Erase(objects, pattern, turns);
    var all := Matching(objects, pattern, "");
    CallsCoverOnce(all, turns, 0);
    WithoutMembers(objects, Removed(e.calls));
    MatchingMembers(objects, pattern, "");
    forall n ensures n in Removed(e.calls) <==> exists c :: c in e.calls && n in c.names && n in c.reply.removed {
      RemovedBySome(e.calls, n);
    }
    forall c, n | c in e.calls && n in c.names ensures n in objects && prefix <= n {
      RequestedBySome(e.calls, c, n);
      assert n in all;
      LikePrefixExact(n, prefix);
    }
  }

  lemma {:induction false} RemovedBySome(calls: seq<Call>, n: string)
    ensures n in Removed(calls) <==> exists c :: c in calls && n in c.names && n in c.reply.removed
  {
    if calls != [] {
      RemovedBySome(calls[1..], n);
      assert forall c :: c in calls <==> c == calls[0] || c in calls[1..];
    }
  }

  lemma {:induction false} RequestedBySome(calls: seq<Call>, c: Call, n: string)
    requires c in calls && n in c.names
    ensures n in Requested(calls)
  {
    if c != calls[0] {
      RequestedBySome(calls[1..], c, n);
    }
  }

  /** Whatever an erase meets, failing or not, every object outside the prefix is left. */
  lemma OnlyPrefixTouched(objects: seq<string>, prefix: string, turns: nat -> Turn, n: string)
    requires Sorted(objects) && n in objects && !(prefix <= n)
    ensures n in Erase(objects, LikePrefix(prefix), turns).objects
  {
    var pattern := LikePrefix(prefix);
    var e := Erase(objects, pattern, turns);
    var all := Matching(objects, pattern, "");
    CallsCoverOnce(all, turns, 0);
    RemovedMembers(e.calls);
    MatchingMembers(objects, pattern, "");
    LikePrefixExact(n, prefix);
    assert n !in all;
    assert forall m :: m in Requested(e.calls) ==> m in all;
    WithoutMembers(objects, Removed(e.calls));
  }

  /** Not found counts as success: if every success removes its batch, the verification can fail only
    * after a call answered not found. */
  lemma EraseVerifiesUnlessNotFound(objects: seq<string>, prefix: string, turns: nat -> Turn)
    requires Sorted(objects) && prefix != ""
    requires Erase(objects, LikePrefix(prefix), turns).error.None?
    requires forall c <- Erase(objects, LikePrefix(prefix), turns).calls :: Success(c.reply) ==> AllTaken(c)
    ensures var e := Erase(objects, LikePrefix(prefix), turns);
            VerifyStorage(e.objects, prefix).satisfied
            || exists c :: c in e.calls && c.reply.Answered? && c.reply.status == 404 && !AllTaken(c)
  {
    EraseThenVerify(objects, prefix, turns);
    CallsCoverOnce(Matching(objects, LikePrefix(prefix), ""), turns, 0);
  }

  lemma OneObjectErase(name: string, turns: nat -> Turn)
    requires name != "" && turns(0).queried
    ensures var e := Erase([name], LikePrefix(name), turns);
            && e.calls == [Call([name], turns(0).reply)]
            && Requested(e.calls) == [name]
            && (Accepted(turns(0).reply) <==> e.error.None?)
  {
    var objects, pattern := [name], LikePrefix(name);
    LikePrefixExact(name, name);
    assert objects[1..] == [];
    assert Matching(objects, pattern, "") == [name];
    LastCall(objects, Call([name], turns(0).reply));
  }

  /** Not found without removal is not only possible but enough, and so is a success that removed
    * nothing: one object answered so stays behind an erase that reports success. */
  lemma AcceptedReplyLeavesObject(name: string, turns: nat -> Turn)
    requires name != "" && turns(0).queried
    requires turns(0).reply in {Answered(404, {}), Answered(200, {})}
    ensures var e := Erase([name], LikePrefix(name), turns);
            e.error.None? && |Requested(e.calls)| == 1 && !VerifyStorage(e.objects, name).satisfied
  {
    OneObjectErase(name, turns);
    EraseThenVerify([name], name, turns);
    var e := Erase([name], LikePrefix(name), turns);
    assert e.calls[0] in e.calls && name in e.calls[0].names;
  }

  /** A verified erase is idempotent: a second one that can query asks for nothing and changes nothing. */
  lemma SecondEraseIsEmpty(objects: seq<string>, prefix: string, turns: nat -> Turn)
    requires Sorted(objects) && prefix != "" && VerifyStorage(objects, prefix).satisfied
    ensures Erase(objects, LikePrefix(prefix), turns)
            == Erasure(objects, [], if turns(0).queried then None else Some(Remote))
  {
    WantedAreSelected(objects, prefix);
    WithoutNone(objects);
  }

  /** When the first erase left objects behind, a second one asks for exactly those. */
  lemma SecondEraseRetries(objects: seq<string>, prefix: string, first: nat -> Turn, second: nat -> Turn)
    requires Sorted(objects) && prefix != ""
    requires var e1 := Erase(objects, LikePrefix(prefix), first);
             e1.error.None? && Erase(e1.objects, LikePrefix(prefix), second).error.None?
    ensures var e1 := Erase(objects, LikePrefix(prefix), first);
            var e2 := Erase(e1.objects, LikePrefix(prefix), second);
            forall n :: n in Requested(e2.calls) <==> n in Requested(e1.calls) && n !in Removed(e1.calls)
  {
    var e1 := Erase(objects, LikePrefix(prefix), first);
    EraseThenVerify(objects, prefix, first);
    EraseThenVerify(e1.objects, prefix, second);
  }

  // ----- for mapped buckets -----

  /** For every validated bucket and every subject with a user id: an erase whose calls remove all they
    * name verifies with nothing left, and erasing again affects nothing. */
  lemma MappedBucketErases(
      s: SupabaseMapping.StorageMapping, subject: SupabaseMapping.Subject, objects: seq<string>, turns: nat -> Turn,
      again: nat -> Turn)
    requires SupabaseMapping.ValidPrefixTemplate(s.prefix) && SupabaseMapping.SubjectPrefix(s, subject).Ok?
    requires Sorted(objects) && again(0).queried
    requires var e := Erase(objects, LikePrefix(SupabaseMapping.SubjectPrefix(s, subject).value), turns);
             e.error.None? && forall c <- e.calls :: AllTaken(c)
    ensures var prefix := SupabaseMapping.SubjectPrefix(s, subject).value;
            var e := Erase(objects, LikePrefix(prefix), turns);
            && VerifyStorage(e.objects, prefix) == Verification(true, 0)
            && Erase(e.objects, LikePrefix(prefix), again) == Erasure(e.objects, [], None)
  {
    var prefix := SupabaseMapping.SubjectPrefix(s, subject).value;
    SupabaseMapping.SubjectPrefixesDiffer(s, subject, subject);
    EraseThenVerify(objects, prefix, turns);
    SecondEraseIsEmpty(Erase(objects, LikePrefix(prefix), turns).objects, prefix, again);
  }

  /** In a bucket that keeps subjects apart, an erase for one subject leaves every object of another,
    * whatever happens during it. */
  lemma MappedBucketSparesOthers(
      s: SupabaseMapping.StorageMapping, one: SupabaseMapping.Subject, other: SupabaseMapping.Subject,
      objects: seq<string>, turns: nat -> Turn, n: string)
    requires SupabaseMapping.KeepsApart(s) && SupabaseMapping.SubjectPrefix(s, one).Ok?
    requires SupabaseMapping.PlainId(one) && SupabaseMapping.PlainId(other)
    requires SupabaseMapping.NonBlank(one.applicationUserId) != SupabaseMapping.NonBlank(other.applicationUserId)
    requires Sorted(objects) && n in objects && SupabaseMapping.Reaches(s, other, n)
    ensures n in Erase(objects, LikePrefix(SupabaseMapping.SubjectPrefix(s, one).value), turns).objects
  {
    assert !SupabaseMapping.Reaches(s, one, n);
    OnlyPrefixTouched(objects, SupabaseMapping.SubjectPrefix(s, one).value, turns, n);
  }

  /** In one that does not, it can take them: with the mapping "u{user_id}" and its like, a successful
    * erase for user "x" asks for every object of user "xx". */
  lemma LetterBucketTakesOthers(
      s: SupabaseMapping.StorageMapping, letter: char, objects: seq<string>, turns: nat -> Turn, n: string)
    requires SupabaseMapping.Alphanumeric(letter) && s.prefix == [letter] + SupabaseMapping.TOKEN
    requires Sorted(objects) && n in objects && SupabaseMapping.Reaches(s, SupabaseMapping.SubjectWith("xx"), n)
    ensures var r := SupabaseMapping.SubjectPrefix(s, SupabaseMapping.SubjectWith("x"));
            && r.Ok?
            && var e := Erase(objects, LikePrefix(r.value), turns);
               e.error.None? ==> n in Requested(e.calls)
  {
    var one := SupabaseMapping.SubjectWith("x");
    SupabaseMapping.LetterTemplateReachesOthers(s, letter);
    assert SupabaseMapping.Reaches(s, one, n);
    var prefix := SupabaseMapping.SubjectPrefix(s, one).value;
    SupabaseMapping.SubjectPrefixesDiffer(s, one, one);
    if Erase(objects, LikePrefix(prefix), turns).error.None? {
      EraseThenVerify(objects, prefix, turns);
    }
  }
}
