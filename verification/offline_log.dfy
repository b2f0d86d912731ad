/** The offline change log of DataServiceManager.swift as a state machine: user edits, network changes,
    what becomes of each remote request, and the replies. */
module OfflineLog {
  import opened Wrappers

  datatype Collection = Shot | Report

  /** Ids are unique across the two collections. */
  datatype Id = Id(collection: Collection, key: string)

  /** A stored object; shots name the report they belong to. */
  datatype Object = Object(reportID: string, content: string)
  type Store = map<Id, Object>

  datatype MethodType = Create | Update | Delete

  /** `OfflineStorageModel`: record numbers are fresh ids of their own. */
  datatype Record = Record(number: nat, methodType: MethodType, objectID: Id)

  /** A request under way: the whole object to be put, or none to delete it. Its reply names the record
      it was made for. */
  datatype Request = Request(record: nat, objectID: Id, put: Option<Object>)
  datatype Reply = Reply(record: nat, success: bool)

  /** What may become of the oldest request: applied and acknowledged, applied with the acknowledgement
      lost, or not applied. */
  datatype Outcome = Acknowledged | Lost | Rejected

  datatype State = State(
    local: Store, log: seq<Record>, next: nat, online: bool,
    remote: Store, queue: seq<Request>, replies: seq<Reply>)

  datatype Step =
    | Add(id: Id, value: Object)
    | Put(id: Id, value: Object)
    | Remove(id: Id, shots: seq<Id>)
    | Network(online: bool)
    | Check
    | Remote(outcome: Outcome)
    | Answer(k: nat)

  // ---------------------------------------------------------------- What each step does

  /** The log without some records. */
  function Keep(log: seq<Record>, gone: set<nat>): seq<Record> {
    if log == [] then []
    else (if log[0].number in gone then [] else [log[0]]) + Keep(log[1..], gone)
  }

  /** `getOfflineStore(ofObjID:)` */
  function Numbers(log: seq<Record>, id: Id): set<nat> {
    set r | r in log && r.objectID == id :: r.number
  }

  function Lookup(store: Store, id: Id): Option<Object> {
    if id in store then Some(store[id]) else None
  }

  /** What the remote is asked to hold for a record. */
  function Wanted(r: Record, local: Store): Option<Object> {
    if r.methodType == Delete then None else Lookup(local, r.objectID)
  }

  function Requests(log: seq<Record>, local: Store): (q: seq<Request>)
    ensures |q| == |log|
    ensures forall k :: 0 <= k < |q| ==> q[k] == Request(log[k].number, log[k].objectID, Wanted(log[k], local))
  {
    seq(|log|, k requires 0 <= k < |log| => Request(log[k].number, log[k].objectID, Wanted(log[k], local)))
  }

  /** `checkAndMergeChangeInLocalDatabase` */
  function Checked(s: State): State {
    if s.online then s.(queue := s.queue + Requests(s.log, s.local)) else s
  }

  /** `changeInLocalDatabase` */
  function Changed(s: State, id: Id, methodType: MethodType): State {
    Checked(s.(log := Keep(s.log, Numbers(s.log, id)) + [Record(s.next, methodType, id)], next := s.next + 1))
  }

  /** `deleteObject` on one object: the change is recorded, and sent, before the object goes. */
  function Deleted(s: State, id: Id): State {
    var t := Changed(s, id, Delete);
    t.(local := t.local - {id})
  }

  function DeletedAll(s: State, ids: seq<Id>): State
    decreases |ids|
  {
    if ids == [] then s else Deleted(DeletedAll(s, ids[..|ids| - 1]), ids[|ids| - 1])
  }

  /** `getShotData(from:)` lists the shots of a report, in the order of the store. */
  ghost predicate ShotsOf(local: Store, id: Id, shots: seq<Id>) {
    if id.collection == Report then
      && (forall i, j :: 0 <= i < j < |shots| ==> shots[i] != shots[j])
      && forall x :: x in shots <==> x in local && x.collection == Shot && local[x].reportID == id.key
    else shots == []
  }

  function Processed(s: State, outcome: Outcome): State
    requires s.queue != []
  {
    var q := s.queue[0];
    var remote := if outcome == Rejected then s.remote else Applied(s.remote, q);
    s.(remote := remote, queue := s.queue[1..], replies := s.replies + [Reply(q.record, outcome == Acknowledged)])
  }

  function Applied(remote: Store, q: Request): Store {
    if q.put.Some? then remote[q.objectID := q.put.value] else remote - {q.objectID}
  }

  /** A reply is delivered; a record that is gone already stays gone. */
  function Answered(s: State, k: nat): State
    requires k < |s.replies|
  {
    var reply := s.replies[k];
    s.(replies := s.replies[..k] + s.replies[k + 1..],
       log := if reply.success then Keep(s.log, {reply.record}) else s.log)
  }

  /** New objects have new ids, and only what exists is deleted. */
  ghost predicate Enabled(s: State, step: Step) {
    match step
    case Add(id, _) => id !in s.local
    case Remove(id, shots) => id in s.local && ShotsOf(s.local, id, shots)
    case Remote(_) => s.queue != []
    case Answer(k) => k < |s.replies|
    case _ => true
  }

  function Next(s: State, step: Step): State
    requires Enabled(s, step)
  {
    match step
    case Add(id, value) => Changed(s.(local := s.local[id := value]), id, Create)
    case Put(id, value) => Changed(s.(local := s.local[id := value]), id, Update)
    case Remove(id, shots) => Deleted(DeletedAll(s, shots), id)
    case Network(online) => Checked(s.(online := online))
    case Check => Checked(s)
    case Remote(outcome) => Processed(s, outcome)
    case Answer(k) => Answered(s, k)
  }

  ghost predicate Runs(s: State, steps: seq<Step>)
    decreases |steps|
  {
    steps != [] ==> Enabled(s, steps[0]) && Runs(Next(s, steps[0]), steps[1..])
  }

  ghost function Run(s: State, steps: seq<Step>): State
    requires Runs(s, steps)
    decreases |steps|
  {
    if steps == [] then s else Run(Next(s, steps[0]), steps[1..])
  }

  // ---------------------------------------------------------------- The log keeps what it drops apart

  lemma {:induction false} KeepMembers(log: seq<Record>, gone: set<nat>)
    ensures forall r :: r in Keep(log, gone) <==> r in log && r.number !in gone
    ensures Distinct(log) ==> Distinct(Keep(log, gone))
  {
    if log != [] {
      KeepMembers(log[1..], gone);
      var rest := Keep(log[1..], gone);
      assert log == [log[0]] + log[1..];
      if Distinct(log) {
        assert forall k :: 0 <= k < |log| - 1 ==> log[1..][k] == log[k + 1];
        assert Distinct(log[1..]);
        forall k | 0 <= k < |rest| ensures log[0].objectID != rest[k].objectID && log[0].number != rest[k].number {
          assert rest[k] in rest;
        }
      }
    }
  }

  /** At most one record for each object. */
  ghost predicate Distinct(log: seq<Record>) {
    forall i, j :: 0 <= i < j < |log| ==> log[i].objectID != log[j].objectID && log[i].number != log[j].number
  }

  lemma MemberIsUnique(log: seq<Record>, a: Record, b: Record)
    requires Distinct(log) && a in log && b in log && (a.objectID == b.objectID || a.number == b.number)
    ensures a == b
  {
    var i :| 0 <= i < |log| && log[i] == a;
    var j :| 0 <= j < |log| && log[j] == b;
  }

  // ---------------------------------------------------------------- The invariant

  /** Nothing that is still under way can take the remote object away from the local one. */
  ghost predicate Settled(s: State, id: Id) {
    && Lookup(s.remote, id) == Lookup(s.local, id)
    && forall q :: q in s.queue && q.objectID == id ==> q.put == Lookup(s.local, id)
  }

  ghost predicate Recorded(s: State, id: Id) {
    exists r :: r in s.log && r.objectID == id
  }

  /** A request made for a record of the log asks for the current contents, and later requests for the
      same object were made for the same record. */
  ghost predicate Current(s: State, r: Record, k: nat) {
    k < |s.queue| && s.queue[k].record == r.number ==>
      && s.queue[k].objectID == r.objectID
      && s.queue[k].put == Lookup(s.local, r.objectID)
      && forall j :: k < j < |s.queue| && s.queue[j].objectID == r.objectID ==> s.queue[j].record == r.number
  }

  ghost predicate Invariant(s: State) {
    && Distinct(s.log)
    && (forall r :: r in s.log ==> r.number < s.next && (r.methodType == Delete <==> r.objectID !in s.local))
    && (forall q :: q in s.queue ==> q.record < s.next)
    && (forall a :: a in s.replies ==> a.record < s.next)
    && (forall r, k: nat :: r in s.log ==> Current(s, r, k))
    && (forall r, a :: r in s.log && a in s.replies && a.success && a.record == r.number ==> Settled(s, r.objectID))
    && (forall id :: Recorded(s, id) || Settled(s, id))
  }

  // ---------------------------------------------------------------- Every step keeps it

  lemma {:induction false} CheckedKeeps(s: State)
    requires Invariant(s)
    ensures Invariant(Checked(s))
  {
    var t := Checked(s);
    if s.online {
      var sent := Requests(s.log, s.local);
      assert t.queue == s.queue + sent;
      forall r, k: nat | r in t.log ensures Current(t, r, k) {
        if 0 <= k < |t.queue| && t.queue[k].record == r.number {
          SentForRecord(s, r, k);
        }
      }
      forall id | Settled(s, id) ensures Settled(t, id) {
        forall q | q in t.queue && q.objectID == id ensures q.put == Lookup(t.local, id) {
          if q !in s.queue { SentIsCurrent(s, q); }
        }
      }
      forall q | q in t.queue ensures q.record < t.next {
        if q !in s.queue { SentIsCurrent(s, q); }
      }
    }
  }

  /** What a check sends for a record. */
  lemma SentIsCurrent(s: State, q: Request)
    requires Invariant(s) && q in Requests(s.log, s.local)
    ensures q.put == Lookup(s.local, q.objectID) && q.record < s.next
    ensures exists r :: r in s.log && r.number == q.record && r.objectID == q.objectID
  {
    var sent := Requests(s.log, s.local);
    var k :| 0 <= k < |sent| && sent[k] == q;
    assert s.log[k] in s.log;
  }

  lemma SentForRecord(s: State, r: Record, k: nat)
    requires Invariant(s) && r in s.log && s.online
    requires k < |Checked(s).queue| && Checked(s).queue[k].record == r.number
    ensures Current(Checked(s), r, k)
  {
    var t, n := Checked(s), |s.queue|;
    var sent := Requests(s.log, s.local);
    if k >= n {
      assert t.queue[k] == sent[k - n] && s.log[k - n] in s.log;
      MemberIsUnique(s.log, r, s.log[k - n]);
    } else {
      assert t.queue[k] == s.queue[k];
      assert Current(s, r, k);
    }
    forall j | k < j < |t.queue| && t.queue[j].objectID == r.objectID ensures t.queue[j].record == r.number {
      if j >= n {
        assert t.queue[j] == sent[j - n] && s.log[j - n] in s.log;
        MemberIsUnique(s.log, r, s.log[j - n]);
      } else {
        assert t.queue[j] == s.queue[j];
      }
    }
  }

  /** The state between recording a change and checking: only `id` differs locally. */
  function Noted(s: State, id: Id, methodType: MethodType, local: Store): State {
    s.(local := local, log := Keep(s.log, Numbers(s.log, id)) + [Record(s.next, methodType, id)], next := s.next + 1)
  }

  lemma {:induction false} NotedKeeps(s: State, id: Id, methodType: MethodType, local: Store)
    requires Invariant(s) && (methodType == Delete <==> id !in local)
    requires forall x :: x != id ==> Lookup(local, x) == Lookup(s.local, x)
    ensures Invariant(Noted(s, id, methodType, local))
  {
    var t, new' := Noted(s, id, methodType, local), Record(s.next, methodType, id);
    NotedMembers(s, id, new');
    forall r | r in t.log && r != new' ensures r.methodType == Delete <==> r.objectID !in local {
      assert Lookup(local, r.objectID) == Lookup(s.local, r.objectID);
    }
    forall r, k: nat | r in t.log ensures Current(t, r, k) {
      if r != new' { assert Current(s, r, k); }
    }
    forall r, a | r in t.log && a in t.replies && a.success && a.record == r.number ensures Settled(t, r.objectID) {
      assert r != new';
      assert Settled(s, r.objectID);
    }
    forall x ensures Recorded(t, x) || Settled(t, x) {
      if x == id {
        assert new' in t.log;
      } else if Recorded(s, x) {
        var r :| r in s.log && r.objectID == x;
        assert r in t.log;
      } else {
        assert Settled(s, x);
      }
    }
  }

  lemma NotedMembers(s: State, id: Id, r': Record)
    requires Invariant(s) && r'.objectID == id && r'.number == s.next
    ensures var log := Keep(s.log, Numbers(s.log, id)) + [r'];
            && Distinct(log)
            && forall r :: r in log <==> r == r' || (r in s.log && r.objectID != id)
  {
    var kept := Keep(s.log, Numbers(s.log, id));
    KeepMembers(s.log, Numbers(s.log, id));
    forall r | r in s.log ensures r.number in Numbers(s.log, id) <==> r.objectID == id {
      if r.number in Numbers(s.log, id) {
        var x :| x in s.log && x.objectID == id && x.number == r.number;
        MemberIsUnique(s.log, x, r);
      }
    }
    forall k | 0 <= k < |kept| ensures kept[k].objectID != id && kept[k].number != s.next {
      assert kept[k] in kept;
    }
  }

  /** Sending a deletion does not depend on whether the object is gone yet. */
  lemma DeletedIsNoted(s: State, id: Id)
    requires Invariant(s)
    ensures Deleted(s, id) == Checked(Noted(s, id, Delete, s.local - {id}))
  {
    var log := Keep(s.log, Numbers(s.log, id)) + [Record(s.next, Delete, id)];
    NotedMembers(s, id, Record(s.next, Delete, id));
    var a, b := Requests(log, s.local), Requests(log, s.local - {id});
    forall k | 0 <= k < |log| ensures a[k] == b[k] {
      assert log[k] in log;
    }
    assert a == b;
  }

  lemma {:induction false} DeletedKeeps(s: State, id: Id)
    requires Invariant(s)
    ensures Invariant(Deleted(s, id))
  {
    DeletedIsNoted(s, id);
    NotedKeeps(s, id, Delete, s.local - {id});
    CheckedKeeps(Noted(s, id, Delete, s.local - {id}));
  }

  lemma {:induction false} DeletedAllKeeps(s: State, ids: seq<Id>)
    requires Invariant(s)
    ensures Invariant(DeletedAll(s, ids))
    decreases |ids|
  {
    hide Invariant;
    if ids != [] {
      DeletedAllKeeps(s, ids[..|ids| - 1]);
      DeletedKeeps(DeletedAll(s, ids[..|ids| - 1]), ids[|ids| - 1]);
    }
  }

  lemma {:induction false} ProcessedKeeps(s: State, outcome: Outcome)
    requires Invariant(s) && s.queue != []
    ensures Invariant(Processed(s, outcome))
  {
    var t, q := Processed(s, outcome), s.queue[0];
    assert s.queue == [q] + t.queue;
    forall r, k: nat | r in t.log ensures Current(t, r, k) {
      var k' := k + 1;
      assert Current(s, r, k');
      if 0 <= k < |t.queue| {
        assert t.queue[k] == s.queue[k'];
        forall j | k < j < |t.queue| && t.queue[k].record == r.number && t.queue[j].objectID == r.objectID
          ensures t.queue[j].record == r.number
        {
          assert t.queue[j] == s.queue[j + 1];
        }
      }
    }
    forall id | Settled(s, id) ensures Settled(t, id) {
      assert q in s.queue;
    }
    forall r, a | r in t.log && a in t.replies && a.success && a.record == r.number ensures Settled(t, r.objectID) {
      if a !in s.replies { AcknowledgedSettles(s, r); }
    }
  }

  /** Once the remote has applied a request of the latest record, whatever is still queued for the object
      repeats it. */
  lemma AcknowledgedSettles(s: State, r: Record)
    requires Invariant(s) && s.queue != [] && r in s.log && s.queue[0].record == r.number
    ensures Settled(Processed(s, Acknowledged), r.objectID)
  {
    var t := Processed(s, Acknowledged);
    assert Current(s, r, 0);
    forall q | q in t.queue && q.objectID == r.objectID ensures q.put == Lookup(s.local, r.objectID) {
      var j :| 0 <= j < |t.queue| && t.queue[j] == q;
      var j' := j + 1;
      assert s.queue[j'] == q;
      assert Current(s, r, j');
    }
  }

  lemma {:induction false} AnsweredKeeps(s: State, k: nat)
    requires Invariant(s) && k < |s.replies|
    ensures Invariant(Answered(s, k))
  {
    var t, a := Answered(s, k), s.replies[k];
    assert a in s.replies && forall x :: x in t.replies ==> x in s.replies;
    KeepMembers(s.log, {a.record});
    forall r, j: nat | r in t.log ensures Current(t, r, j) { assert Current(s, r, j); }
    forall id | Settled(s, id) ensures Settled(t, id) { }
    forall id ensures Recorded(t, id) || Settled(t, id) {
      if Recorded(s, id) {
        var r :| r in s.log && r.objectID == id;
        if r !in t.log { assert Settled(s, id); }
      } else {
        assert Settled(s, id);
      }
    }
  }

  lemma {:induction false} StepKeeps(s: State, step: Step)
    requires Invariant(s) && Enabled(s, step)
    ensures Invariant(Next(s, step))
  {
    hide Invariant, Checked, Processed, Answered, Deleted, DeletedAll;
    match step {
      case Add(id, value) =>
        NotedKeeps(s, id, Create, s.local[id := value]);
        CheckedKeeps(Noted(s, id, Create, s.local[id := value]));
      case Put(id, value) =>
        NotedKeeps(s, id, Update, s.local[id := value]);
        CheckedKeeps(Noted(s, id, Update, s.local[id := value]));
      case Remove(id, shots) =>
        DeletedAllKeeps(s, shots);
        DeletedKeeps(DeletedAll(s, shots), id);
      case Network(online) =>
        NetworkKeeps(s, online);
        CheckedKeeps(s.(online := online));
      case Check => CheckedKeeps(s);
      case Remote(outcome) => ProcessedKeeps(s, outcome);
      case Answer(k) => AnsweredKeeps(s, k);
    }
  }

  lemma NetworkKeeps(s: State, online: bool)
    requires Invariant(s)
    ensures Invariant(s.(online := online))
  {
    var t := s.(online := online);
    forall r, k: nat | r in t.log ensures Current(t, r, k) { assert Current(s, r, k); }
    forall id | Settled(s, id) ensures Settled(t, id) { }
    forall id ensures Recorded(t, id) || Settled(t, id) { if Recorded(s, id) { assert Recorded(t, id); } }
  }

  // ---------------------------------------------------------------- What a user's action does

  /** The objects `ids` are gone, each with a deletion as its only record; online, each deletion was asked
      for. Everything else is as before. */
  ghost predicate Gone(s: State, t: State, ids: set<Id>) {
    && t.local == s.local - ids
    && (forall r: Record :: r.objectID !in ids ==> (r in t.log <==> r in s.log))
    && (forall id :: id in ids ==> Marked(t.log, id, Delete))
    && t.online == s.online && t.remote == s.remote && t.replies == s.replies
    && s.queue <= t.queue && (!s.online ==> t.queue == s.queue)
    && (s.online ==> forall id :: id in ids ==> Asked(t.queue[|s.queue|..], id, None))
  }

  /** The object has one record, of this kind. */
  ghost predicate Marked(log: seq<Record>, id: Id, methodType: MethodType) {
    && (exists r :: r in log && r.objectID == id)
    && forall i, j :: 0 <= i < |log| && 0 <= j < |log| && log[i].objectID == log[j].objectID == id ==>
         i == j && log[i].methodType == methodType
  }

  ghost predicate Asked(queue: seq<Request>, id: Id, put: Option<Object>) {
    exists k :: 0 <= k < |queue| && queue[k].objectID == id && queue[k].put == put
  }

  lemma OnlyRecord(log: seq<Record>, r: Record)
    requires Distinct(log) && r in log
    ensures Marked(log, r.objectID, r.methodType)
  {
    forall i, j | 0 <= i < |log| && 0 <= j < |log| && log[i].objectID == log[j].objectID == r.objectID
      ensures i == j && log[i] == r
    {
      MemberIsUnique(log, log[i], r);
    }
  }

  /** The record of a change, and the requests of the check behind it. */
  lemma ChangeIsSent(s: State, id: Id, methodType: MethodType, local: Store)
    requires Invariant(s) && (methodType == Delete <==> id !in local)
    ensures var u := Noted(s, id, methodType, local);
            var t := Checked(u);
            && t == u.(queue := t.queue)
            && Distinct(t.log) && Marked(t.log, id, methodType)
            && (forall r: Record :: r.objectID != id ==> (r in t.log <==> r in s.log))
            && s.queue <= t.queue && (!s.online ==> t.queue == s.queue)
            && (s.online ==> |t.queue| == |s.queue| + |t.log| && Asked(t.queue[|s.queue|..], id, Lookup(local, id)))
  {
    var u, r' := Noted(s, id, methodType, local), Record(s.next, methodType, id);
    var t := Checked(u);
    NotedMembers(s, id, r');
    assert r' in t.log;
    OnlyRecord(t.log, r');
    if s.online {
      var k :| 0 <= k < |t.log| && t.log[k] == r';
      var sent := t.queue[|s.queue|..];
      assert sent == Requests(u.log, u.local);
      assert sent[k].objectID == id && sent[k].put == Lookup(local, id);
    }
  }

  lemma {:induction false} DeletedIsGone(s: State, id: Id)
    requires Invariant(s)
    ensures Gone(s, Deleted(s, id), {id})
  {
    hide Invariant, Checked;
    DeletedIsNoted(s, id);
    ChangeIsSent(s, id, Delete, s.local - {id});
  }

  lemma GoneTwice(s: State, t: State, u: State, a: set<Id>, id: Id)
    requires Gone(s, t, a) && Gone(t, u, {id}) && id !in a && Distinct(u.log)
    ensures Gone(s, u, a + {id})
  {
    hide Marked, Asked;
    assert u.local == s.local - (a + {id});
    forall x | x in a ensures Marked(u.log, x, Delete) { StaysMarked(t.log, u.log, x, id); }
    if s.online {
      forall x | x in a + {id} ensures Asked(u.queue[|s.queue|..], x, None) {
        if x == id { StaysAsked(s.queue, t.queue, u.queue, x); } else { WasAsked(s.queue, t.queue, u.queue, x); }
      }
    }
  }

  lemma StaysMarked(a: seq<Record>, b: seq<Record>, x: Id, id: Id)
    requires Marked(a, x, Delete) && x != id && Distinct(b)
    requires forall r: Record :: r.objectID != id ==> (r in b <==> r in a)
    ensures Marked(b, x, Delete)
  {
    var r :| r in a && r.objectID == x;
    OnlyRecord(b, r);
  }

  lemma {:induction false} AllGone(s: State, ids: seq<Id>)
    requires Invariant(s) && forall i, j :: 0 <= i < j < |ids| ==> ids[i] != ids[j]
    ensures Gone(s, DeletedAll(s, ids), set x | x in ids)
    decreases |ids|
  {
    hide Invariant, Gone, Deleted;
    if ids == [] {
      assert (set x | x in ids) == {};
      NothingGone(s);
    } else {
      var n := |ids| - 1;
      var t := DeletedAll(s, ids[..n]);
      AllGone(s, ids[..n]);
      DeletedAllKeeps(s, ids[..n]);
      DeletedIsGone(t, ids[n]);
      DeletedKeeps(t, ids[n]);
      assert Distinct(Deleted(t, ids[n]).log) by { DistinctLog(Deleted(t, ids[n])); }
      GoneTwice(s, t, Deleted(t, ids[n]), (set x | x in ids[..n]), ids[n]);
      assert (set x | x in ids) == (set x | x in ids[..n]) + {ids[n]};
    }
  }

  lemma NothingGone(s: State)
    ensures Gone(s, s, {})
  {
    assert s.local - {} == s.local;
  }

  lemma DistinctLog(s: State)
    requires Invariant(s)
    ensures Distinct(s.log)
  {
  }

  /** Deleting a report takes its shots with it: none of them stays, each has a deletion as its only record,
      and online each deletion was asked for. Nothing else changes. */
  lemma RemoveTakesShots(s: State, id: Id, shots: seq<Id>)
    requires Invariant(s) && Enabled(s, Remove(id, shots))
    ensures Gone(s, Next(s, Remove(id, shots)), {id} + ShotsBelow(s.local, id))
  {
    hide Invariant, Gone, Deleted, DeletedAll;
    var t := DeletedAll(s, shots);
    AllGone(s, shots);
    DeletedAllKeeps(s, shots);
    DeletedIsGone(t, id);
    DeletedKeeps(t, id);
    DistinctLog(Deleted(t, id));
    GoneTwice(s, t, Deleted(t, id), (set x | x in shots), id);
    assert {id} + ShotsBelow(s.local, id) == (set x | x in shots) + {id};
  }

  /** The shots that name a report. */
  function ShotsBelow(local: Store, id: Id): set<Id> {
    set x | x in local && id.collection == Report && x.collection == Shot && local[x].reportID == id.key
  }

  /** Adding and updating put the value into the store and leave one record of the change; online the value
      is asked to be put. Nothing else changes. */
  lemma StoresAndRecords(s: State, step: Step)
    requires Invariant(s) && Enabled(s, step) && (step.Add? || step.Put?)
    ensures var t := Next(s, step);
            && t.local == s.local[step.id := step.value]
            && Marked(t.log, step.id, if step.Add? then Create else Update)
            && (forall r: Record :: r.objectID != step.id ==> (r in t.log <==> r in s.log))
            && t.online == s.online && t.remote == s.remote && t.replies == s.replies
            && s.queue <= t.queue && (!s.online ==> t.queue == s.queue)
            && (s.online ==> |t.queue| == |s.queue| + |t.log|
                             && Asked(t.queue[|s.queue|..], step.id, Some(step.value)))
  {
    ChangeIsSent(s, step.id, if step.Add? then Create else Update, s.local[step.id := step.value]);
  }

  /** Nothing but a user's action changes the local store, nothing is asked of the remote without a network,
      and only a good reply takes a record from the log, its own. */
  lemma BackgroundSteps(s: State, step: Step)
    requires Invariant(s) && Enabled(s, step) && !step.Add? && !step.Put? && !step.Remove?
    ensures var t := Next(s, step);
            && t.local == s.local && t.next == s.next
            && t.online == (if step.Network? then step.online else s.online)
            && (!t.online ==> t.queue == if step.Remote? then s.queue[1..] else s.queue)
            && (forall r :: r in t.log <==>
                  r in s.log && (step.Answer? ==> s.replies[step.k] != Reply(r.number, true)))
  {
    if step.Answer? { KeepMembers(s.log, {s.replies[step.k].record}); }
  }

  lemma WasAsked(a: seq<Request>, b: seq<Request>, c: seq<Request>, x: Id)
    requires a <= b <= c && Asked(b[|a|..], x, None)
    ensures Asked(c[|a|..], x, None)
  {
    var k :| 0 <= k < |b[|a|..]| && b[|a|..][k].objectID == x && b[|a|..][k].put == None;
    assert c[|a|..][k] == b[|a|..][k];
  }

  lemma StaysAsked(a: seq<Request>, b: seq<Request>, c: seq<Request>, x: Id)
    requires a <= b <= c && Asked(c[|b|..], x, None)
    ensures Asked(c[|a|..], x, None)
  {
    var k :| 0 <= k < |c[|b|..]| && c[|b|..][k].objectID == x && c[|b|..][k].put == None;
    var j := k + |b| - |a|;
    assert c[|a|..][j] == c[|b|..][k];
  }

  // ---------------------------------------------------------------- Main results

  /** Both sides agree and nothing is under way. */
  ghost predicate Synchronised(s: State) {
    s.log == [] && s.queue == [] && s.replies == [] && s.remote == s.local
  }

  lemma {:induction false} RunKeeps(s: State, steps: seq<Step>)
    requires Invariant(s) && Runs(s, steps)
    ensures Invariant(Run(s, steps))
    decreases |steps|
  {
    hide Invariant, Enabled, Next;
    if steps != [] {
      StepKeeps(s, steps[0]);
      RunKeeps(Next(s, steps[0]), steps[1..]);
    }
  }

  /** In every reachable state each object has at most one pending record, and an object that has none is
      the same on both sides, whatever requests and replies are still under way. */
  lemma Convergence(s: State, steps: seq<Step>)
    requires Synchronised(s) && Runs(s, steps)
    ensures var t := Run(s, steps);
            && Distinct(t.log)
            && forall id :: (forall r :: r in t.log ==> r.objectID != id) ==>
                 Lookup(t.remote, id) == Lookup(t.local, id)
  {
    hide Runs, Run;
    forall id ensures Settled(s, id) { }
    RunKeeps(s, steps);
    var t := Run(s, steps);
    forall id | forall r :: r in t.log ==> r.objectID != id ensures Lookup(t.remote, id) == Lookup(t.local, id) {
      assert Recorded(t, id) || Settled(t, id);
    }
  }

  // ---------------------------------------------------------------- Everything can be brought in line

  /** Each record has a request or a good reply on its way. */
  ghost predicate Covered(s: State) {
    forall r :: r in s.log ==>
      || (exists q :: q in s.queue && q.record == r.number)
      || Reply(r.number, true) in s.replies
  }

  lemma CheckCovers(s: State)
    requires s.online
    ensures Covered(Checked(s))
  {
    var sent := Requests(s.log, s.local);
    forall r | r in s.log ensures exists q :: q in Checked(s).queue && q.record == r.number {
      var k :| 0 <= k < |s.log| && s.log[k] == r;
      assert sent[k] in Checked(s).queue;
    }
  }

  lemma AcknowledgedCovers(s: State)
    requires Covered(s) && s.queue != []
    ensures Covered(Processed(s, Acknowledged))
  {
    var t, q0 := Processed(s, Acknowledged), s.queue[0];
    assert s.queue == [q0] + t.queue;
    forall r | r in t.log
      ensures (exists q :: q in t.queue && q.record == r.number) || Reply(r.number, true) in t.replies
    {
      if q :| q in s.queue && q.record == r.number {
        if q == q0 { assert Reply(r.number, true) in t.replies; } else { assert q in t.queue; }
      }
    }
  }

  lemma AnsweredCovers(s: State, k: nat)
    requires Covered(s) && k < |s.replies|
    ensures Covered(Answered(s, k))
  {
    var t, a := Answered(s, k), s.replies[k];
    assert s.replies == s.replies[..k] + [a] + s.replies[k + 1..];
    KeepMembers(s.log, {a.record});
    forall r | r in t.log
      ensures (exists q :: q in t.queue && q.record == r.number) || Reply(r.number, true) in t.replies
    {
      if Reply(r.number, true) in s.replies { assert a != Reply(r.number, true); }
    }
  }

  lemma {:induction false} Drain(s: State) returns (steps: seq<Step>)
    requires Invariant(s) && Covered(s)
    ensures Runs(s, steps) && Synchronised(Run(s, steps)) && Run(s, steps).local == s.local
    decreases |s.queue|, |s.replies|
  {
    hide Invariant, Covered;
    if s.queue != [] {
      ProcessedKeeps(s, Acknowledged);
      AcknowledgedCovers(s);
      var rest := Drain(Processed(s, Acknowledged));
      steps := [Remote(Acknowledged)] + rest;
      assert steps[1..] == rest;
    } else if s.replies != [] {
      AnsweredKeeps(s, 0);
      AnsweredCovers(s, 0);
      var rest := Drain(Answered(s, 0));
      steps := [Answer(0)] + rest;
      assert steps[1..] == rest;
    } else {
      QuietIsSynchronised(s);
      steps := [];
    }
  }

  lemma QuietIsSynchronised(s: State)
    requires Invariant(s) && Covered(s) && s.queue == [] && s.replies == []
    ensures Synchronised(s)
  {
    NonemptyHasMember(s.log);
    forall id ensures Lookup(s.remote, id) == Lookup(s.local, id) { assert Recorded(s, id) || Settled(s, id); }
    forall id ensures id in s.remote <==> id in s.local { assert Lookup(s.remote, id) == Lookup(s.local, id); }
    forall id | id in s.remote ensures s.remote[id] == s.local[id] {
      assert Lookup(s.remote, id) == Lookup(s.local, id);
    }
  }

  /** From every reachable state, however many requests failed before, one check with the network available
      can be followed by answers that bring the remote to the local contents and empty the log. */
  lemma RecoveryIsPossible(s: State, steps: seq<Step>) returns (more: seq<Step>)
    requires Synchronised(s) && Runs(s, steps)
    ensures var t := Run(s, steps);
            Runs(t, more) && Synchronised(Run(t, more)) && Run(t, more).remote == t.local
  {
    hide Runs, Run, Invariant, Covered;
    OnlineAgain(s, steps);
    var t := Run(s, steps);
    var rest := Drain(Next(t, Network(true)));
    more := [Network(true)] + rest;
    RunOne(t, Network(true), rest);
  }

  lemma OnlineAgain(s: State, steps: seq<Step>)
    requires Synchronised(s) && Runs(s, steps)
    ensures var u := Next(Run(s, steps), Network(true)); Invariant(u) && Covered(u)
  {
    hide Runs, Run, Invariant;
    assert Invariant(s) by { SynchronisedIsInvariant(s); }
    RunKeeps(s, steps);
    var t := Run(s, steps);
    NetworkKeeps(t, true);
    CheckedKeeps(t.(online := true));
    CheckCovers(t.(online := true));
  }

  /** The remote carries out and acknowledges what it was asked, and replies are delivered, in any order. */
  predicate Answering(steps: seq<Step>) {
    forall k :: 0 <= k < |steps| ==> steps[k] == Remote(Acknowledged) || steps[k].Answer?
  }

  lemma {:induction false} AnsweringKeeps(s: State, steps: seq<Step>)
    requires Invariant(s) && Covered(s) && Runs(s, steps) && Answering(steps)
    ensures var t := Run(s, steps);
            && Invariant(t) && Covered(t) && t.local == s.local
            && |steps| + 2 * |t.queue| + |t.replies| == 2 * |s.queue| + |s.replies|
    decreases |steps|
  {
    hide Invariant, Covered;
    if steps != [] {
      StepKeeps(s, steps[0]);
      if steps[0].Answer? { AnsweredCovers(s, steps[0].k); } else { AcknowledgedCovers(s); }
      AnsweringKeeps(Next(s, steps[0]), steps[1..]);
    }
  }

  /** From every reachable state, however many requests failed before: once the network is available again,
      every run of an answering remote ends, after two steps for each request and one for each reply that
      were under way, with both sides equal to what was stored locally and nothing left in the log. */
  lemma Recovery(s: State, steps: seq<Step>, more: seq<Step>)
    requires Synchronised(s) && Runs(s, steps)
    requires Answering(more) && Runs(Next(Run(s, steps), Network(true)), more)
    ensures var t := Run(s, steps);
            var u := Next(t, Network(true));
            var v := Run(u, more);
            && |more| <= 2 * |u.queue| + |u.replies|
            && (|more| == 2 * |u.queue| + |u.replies| <==> v.queue == [] && v.replies == [])
            && (v.queue == [] && v.replies == [] <==> Synchronised(v))
            && v.local == t.local
  {
    hide Runs, Run, Invariant, Covered;
    OnlineAgain(s, steps);
    var u := Next(Run(s, steps), Network(true));
    AnsweringKeeps(u, more);
    var v := Run(u, more);
    if v.queue == [] && v.replies == [] { QuietIsSynchronised(v); }
  }

  lemma SynchronisedIsInvariant(s: State)
    requires Synchronised(s)
    ensures Invariant(s)
  {
    forall id ensures Settled(s, id) { }
  }

  lemma RunOne(s: State, step: Step, rest: seq<Step>)
    requires Enabled(s, step) && Runs(Next(s, step), rest)
    ensures Runs(s, [step] + rest) && Run(s, [step] + rest) == Run(Next(s, step), rest)
  {
    assert ([step] + rest)[1..] == rest;
  }

  // ---------------------------------------------------------------- The manager

  /** `DataServiceManager` with the two services behind it. */
  class DataServiceManager {
    var local: Store
    var log: seq<Record>
    var next: nat
    var online: bool
    var remote: Store
    var queue: seq<Request>
    var replies: seq<Reply>

    function Now(): State
      reads this
    {
      State(local, log, next, online, remote, queue, replies)
    }

    constructor (contents: Store)
      ensures Synchronised(Now()) && local == contents
    {
      local, remote := contents, contents;
      log, queue, replies := [], [], [];
      next, online := 0, false;
    }

    /** `mergeChangeToRemoteDatabase` */
    method MergeChange(item: Record, value: Object)
      modifies this`queue
      ensures queue == old(queue) +
                       [Request(item.number, item.objectID, if item.methodType == Delete then None else Some(value))]
    {
      match item.methodType {
        case Create => queue := queue + [Request(item.number, item.objectID, Some(value))];
        case Update => queue := queue + [Request(item.number, item.objectID, Some(value))];
        case Delete => queue := queue + [Request(item.number, item.objectID, None)];
      }
    }

    method CheckAndMergeChange()
      modifies this`queue
      ensures Now() == Next(old(Now()), Check)
    {
      if !online { return; }
      for i := 0 to |log|
        invariant queue == old(queue) + Requests(log, local)[..i]
      {
        var item := log[i];
        if item.objectID in local {
          MergeChange(item, local[item.objectID]);
        } else {
          queue := queue + [Request(item.number, item.objectID, None)];
        }
      }
    }

    method GetOfflineStore(id: Id) returns (records: seq<Record>)
      ensures (set r | r in records :: r.number) == Numbers(log, id)
    {
      records := [];
      for i := 0 to |log|
        invariant forall r :: r in records <==> r in log[..i] && r.objectID == id
      {
        if log[i].objectID == id { records := records + [log[i]]; }
      }
    }

    /** `changeInLocalDatabase`: the new record replaces those the object had. */
    method ChangeInLocalDatabase(id: Id, methodType: MethodType)
      modifies this
      ensures Now() == Changed(old(Now()), id, methodType)
    {
      var previous := GetOfflineStore(id);
      KeepAll(log);
      ghost var gone: set<nat> := {};
      for i := 0 to |previous|
        invariant Now() == old(Now()).(log := log)
        invariant gone == set r | r in previous[..i] :: r.number
        invariant log == Keep(old(log), gone)
      {
        KeepTwice(old(log), gone, previous[i].number);
        assert previous[..i + 1] == previous[..i] + [previous[i]];
        gone := gone + {previous[i].number};
        log := Keep(log, {previous[i].number});
      }
      assert previous[..|previous|] == previous && gone == Numbers(old(log), id);
      log := log + [Record(next, methodType, id)];
      next := next + 1;
      CheckAndMergeChange();
    }

    method AddObject(id: Id, value: Object)
      requires id !in local
      modifies this
      ensures Now() == Next(old(Now()), Add(id, value))
    {
      local := local[id := value];
      ChangeInLocalDatabase(id, Create);
    }

    method UpdateObject(id: Id, value: Object)
      modifies this
      ensures Now() == Next(old(Now()), Put(id, value))
    {
      local := local[id := value];
      ChangeInLocalDatabase(id, Update);
    }

    /** `getShotData(from:)` */
    method GetShotData(id: Id) returns (shots: seq<Id>)
      requires id.collection == Report
      ensures ShotsOf(local, id, shots)
    {
      shots := [];
      var rest := local.Keys;
      while rest != {}
        invariant forall i, j :: 0 <= i < j < |shots| ==> shots[i] != shots[j]
        invariant rest <= local.Keys
        invariant forall x :: x in shots <==>
                    x in local && x !in rest && x.collection == Shot && local[x].reportID == id.key
        decreases |rest|
      {
        var x :| x in rest;
        rest := rest - {x};
        if x.collection == Shot && local[x].reportID == id.key { shots := shots + [x]; }
      }
    }

    /** `deleteObject`: the shots of a report go with it. */
    method DeleteObject(id: Id) returns (ghost shots: seq<Id>)
      requires id in local
      modifies this
      ensures Enabled(old(Now()), Remove(id, shots)) && Now() == Next(old(Now()), Remove(id, shots))
      ensures Invariant(old(Now())) ==> Gone(old(Now()), Now(), {id} + ShotsBelow(old(local), id))
      decreases if id.collection == Report then 1 else 0
    {
      var shotList := [];
      if id.collection == Report {
        shotList := GetShotData(id);
        for i := 0 to |shotList|
          invariant Now() == DeletedAll(old(Now()), shotList[..i])
          invariant forall k :: i <= k < |shotList| ==> shotList[k] in local
        {
          assert shotList[..i + 1][..i] == shotList[..i];
          ghost var none := DeleteObject(shotList[i]);
        }
        assert shotList[..|shotList|] == shotList;
      }
      shots := shotList;
      ChangeInLocalDatabase(id, Delete);
      local := local - {id};
      if Invariant(old(Now())) { RemoveTakesShots(old(Now()), id, shots); }
    }

    /** `changeInternetConnection` */
    method ChangeInternetConnection(available: bool)
      modifies this
      ensures Now() == Next(old(Now()), Network(available))
    {
      online := available;
      CheckAndMergeChange();
    }

    /** The remote deals with the oldest request. */
    method Process(outcome: Outcome)
      requires queue != []
      modifies this
      ensures Now() == Next(old(Now()), Remote(outcome))
    {
      var q := queue[0];
      if outcome != Rejected {
        if q.put.Some? { remote := remote[q.objectID := q.put.value]; } else { remote := remote - {q.objectID}; }
      }
      queue := queue[1..];
      replies := replies + [Reply(q.record, outcome == Acknowledged)];
    }

    /** The completion handler of a request. */
    method Complete(k: nat)
      requires k < |replies|
      modifies this
      ensures Now() == Next(old(Now()), Answer(k))
    {
      var reply := replies[k];
      replies := replies[..k] + replies[k + 1..];
      if reply.success { log := Keep(log, {reply.record}); }
    }
  }

  lemma {:induction false} KeepTwice(log: seq<Record>, gone: set<nat>, number: nat)
    ensures Keep(Keep(log, gone), {number}) == Keep(log, gone + {number})
  {
    if log != [] {
      KeepTwice(log[1..], gone, number);
      var rest := Keep(log[1..], gone);
      if log[0].number in gone {
        assert Keep(log, gone) == rest;
      } else {
        assert ([log[0]] + rest)[1..] == rest;
      }
    }
  }

  lemma {:induction false} KeepAll(log: seq<Record>)
    ensures Keep(log, {}) == log
  {
    if log != [] { KeepAll(log[1..]); }
  }
}
