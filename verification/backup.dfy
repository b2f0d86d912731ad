/** `backupData` of DataServiceManager.swift as a state machine: two downloads, then the deletion of
    everything in the cloud, then, for each collection, the upload of the local objects. Requests may be
    carried out in any order, fail, or be carried out with the acknowledgement lost. */
module Backup {
  import opened Wrappers

  datatype Collection = Shot | Report
  type Key = string
  type Store = map<Key, string>
  datatype Item = Item(key: Key, content: string)

  datatype Request = Load(c: Collection) | Remove(c: Collection, key: Key) | Upload(c: Collection, item: Item)

  /** A reply on its way; `keys` is what a download found. */
  datatype Reply = Reply(request: Request, success: bool, keys: seq<Key>)
  datatype Outcome = Acknowledged | Lost | Rejected

  /** What the caller's completion handler is told. */
  datatype Message = Started | Progress(finished: nat, total: nat) | Error

  /** One collection: the local snapshot, the remote contents, what was downloaded, and the objects whose
      deletion and whose upload were acknowledged. */
  datatype Side = Side(local: seq<Item>, remote: Store, cloud: Option<seq<Key>>, removed: set<Key>, added: set<Key>)

  /** `issued` remembers every request ever made. */
  datatype State = State(
    shots: Side, reports: Side, pending: set<Request>, replies: set<Reply>, issued: seq<Request>,
    progress: nat, told: seq<Message>)
  {
    function Of(c: Collection): Side {
      if c == Shot then shots else reports
    }

    function With(c: Collection, x: Side): State {
      if c == Shot then this.(shots := x) else this.(reports := x)
    }

    predicate Loaded() {
      shots.cloud.Some? && reports.cloud.Some?
    }

    /** `totalTask` */
    function Total(): nat
      requires Loaded()
    {
      |reports.cloud.value| + |shots.cloud.value| + |reports.local| + |shots.local|
    }
  }

  // ---------------------------------------------------------------- Steps

  function KeySet(keys: seq<Key>): set<Key> {
    set k | k in keys
  }

  function LocalKeys(items: seq<Item>): set<Key> {
    set i | i in items :: i.key
  }

  function Removals(c: Collection, keys: seq<Key>): (r: seq<Request>)
    ensures |r| == |keys| && forall k :: 0 <= k < |r| ==> r[k] == Remove(c, keys[k])
  {
    seq(|keys|, k requires 0 <= k < |keys| => Remove(c, keys[k]))
  }

  function Uploads(c: Collection, items: seq<Item>): (r: seq<Request>)
    ensures |r| == |items| && forall k :: 0 <= k < |r| ==> r[k] == Upload(c, items[k])
  {
    seq(|items|, k requires 0 <= k < |items| => Upload(c, items[k]))
  }

  function Members(requests: seq<Request>): set<Request> {
    set r | r in requests
  }

  function Issue(s: State, requests: seq<Request>): State {
    s.(pending := s.pending + Members(requests), issued := s.issued + requests)
  }

  /** `reportClosure` and `shotClosure` with `checkLoadingDataDone` */
  function OnLoaded(s: State, c: Collection, keys: seq<Key>): State {
    var t := s.With(c, s.Of(c).(cloud := Some(keys)));
    if t.Loaded() then Issue(t, Removals(Shot, t.shots.cloud.value) + Removals(Report, t.reports.cloud.value)) else t
  }

  function Advanced(s: State): State
    requires s.Loaded()
  {
    s.(progress := s.progress + 1, told := s.told + [Progress(s.progress + 1, s.Total())])
  }

  /** The deletion's handler. The counter it compares is the number of acknowledged deletions. */
  function OnRemoved(s: State, c: Collection, key: Key): State
    requires s.Loaded()
  {
    var t := Advanced(s.With(c, s.Of(c).(removed := s.Of(c).removed + {key})));
    if |t.Of(c).removed| == |t.Of(c).cloud.value| then Issue(t, Uploads(c, t.Of(c).local)) else t
  }

  function OnUploaded(s: State, c: Collection, item: Item): State
    requires s.Loaded()
  {
    Advanced(s.With(c, s.Of(c).(added := s.Of(c).added + {item.key})))
  }

  function Applied(s: State, r: Request): State {
    match r
    case Load(_) => s
    case Remove(c, key) => s.With(c, s.Of(c).(remote := s.Of(c).remote - {key}))
    case Upload(c, item) => s.With(c, s.Of(c).(remote := s.Of(c).remote[item.key := item.content]))
  }

  /** Carrying out a request; a download answers with everything the remote holds. */
  function Settled(s: State, r: Request, outcome: Outcome, keys: seq<Key>): State {
    var t := if outcome == Rejected then s else Applied(s, r);
    t.(pending := s.pending - {r}, replies := s.replies + {Reply(r, outcome == Acknowledged, keys)})
  }

  function Answered(s: State, reply: Reply): State
    requires reply.success && !reply.request.Load? ==> s.Loaded()
  {
    var t := s.(replies := s.replies - {reply});
    if !reply.success then t.(told := t.told + [Error])
    else match reply.request
      case Load(c) => OnLoaded(t, c, reply.keys)
      case Remove(c, key) => OnRemoved(t, c, key)
      case Upload(c, item) => OnUploaded(t, c, item)
  }

  datatype Step = Settle(request: Request, outcome: Outcome, keys: seq<Key>) | Answer(reply: Reply)

  ghost predicate Enabled(s: State, step: Step) {
    match step
    case Settle(r, _, keys) => r in s.pending && (r.Load? ==> Unique(keys) && KeySet(keys) == s.Of(r.c).remote.Keys)
    case Answer(reply) => reply in s.replies && (reply.success && !reply.request.Load? ==> s.Loaded())
  }

  function Next(s: State, step: Step): State
    requires Enabled(s, step)
  {
    match step
    case Settle(r, outcome, keys) => Settled(s, r, outcome, keys)
    case Answer(reply) => Answered(s, reply)
  }

  ghost predicate Runs(s: State, steps: seq<Step>)
    decreases |steps|
  {
    steps != [] ==> Enabled(s, steps[0]) && Runs(Next(s, steps[0]), steps[1..])
  }

  ghost function Run(s: State, steps: seq<Step>): State
    requires Runs(s, steps)
    decreases |steps|
  {
    if steps == [] then s else Run(Next(s, steps[0]), steps[1..])
  }

  ghost predicate Unique<T>(xs: seq<T>) {
    forall i, j :: 0 <= i < j < |xs| ==> xs[i] != xs[j]
  }

  ghost predicate UniqueKeys(items: seq<Item>) {
    forall i, j :: 0 <= i < j < |items| ==> items[i].key != items[j].key
  }

  /** Before anything was asked for, whatever the two sides hold. */
  ghost predicate Initial(s: State) {
    && s.pending == {Load(Report), Load(Shot)} && s.replies == {} && s.issued == [Load(Report), Load(Shot)]
    && s.progress == 0 && s.told == [Started]
    && forall c :: var x := s.Of(c); x.cloud.None? && x.removed == {} && x.added == {} && UniqueKeys(x.local)
  }

  // ---------------------------------------------------------------- The invariant

  /** All deletions of the collection were acknowledged, and there were some. */
  ghost predicate Emptied(x: Side) {
    x.cloud.Some? && x.cloud.value != [] && x.removed == KeySet(x.cloud.value)
  }

  ghost predicate SideInvariant(x: Side) {
    && UniqueKeys(x.local) && x.added <= LocalKeys(x.local)
    && (x.cloud.None? ==> x.removed == {})
    && (x.cloud.Some? ==> Unique(x.cloud.value) && x.removed <= KeySet(x.cloud.value))
    && (!Emptied(x) ==> x.added == {} && (x.cloud.Some? ==> x.remote.Keys <= KeySet(x.cloud.value) - x.removed))
    && (Emptied(x) ==> x.added <= x.remote.Keys && forall k :: k in x.remote ==> Item(k, x.remote[k]) in x.local)
  }

  /** A request that was not answered yet. */
  predicate Outstanding(s: State, r: Request) {
    r in s.pending || exists a :: a in s.replies && a.request == r
  }

  ghost predicate RequestInvariant(s: State, r: Request) {
    var x := s.Of(r.c);
    match r
    case Load(_) => x.cloud.None?
    case Remove(_, key) => s.Loaded() && key in x.cloud.value && key !in x.removed
    case Upload(_, item) => s.Loaded() && Emptied(x) && item in x.local && item.key !in x.added
  }

  /** What a good reply says about the remote. */
  ghost predicate ReplyInvariant(s: State, a: Reply) {
    var x := s.Of(a.request.c);
    a.success ==>
      match a.request
      case Load(_) => Unique(a.keys) && x.remote.Keys == KeySet(a.keys)
      case Remove(_, key) => key !in x.remote
      case Upload(_, item) => item.key in x.remote
  }

  ghost predicate IssuedInvariant(s: State, r: Request) {
    match r
    case Load(_) => true
    case Remove(_, _) => s.Loaded()
    case Upload(c, _) => s.Loaded() && Emptied(s.Of(c))
  }

  ghost predicate ToldInvariant(s: State) {
    && (forall k :: 0 <= k < |s.told| && s.told[k].Progress? ==>
          s.Loaded() && 1 <= s.told[k].finished <= s.progress && s.told[k].total == s.Total())
    && (s.progress > 0 ==> s.Loaded() && Progress(s.progress, s.Total()) in s.told)
    && (forall j, k :: 0 <= j < k < |s.told| && s.told[j].Progress? && s.told[k].Progress? ==>
          s.told[j].finished < s.told[k].finished)
  }

  ghost predicate Invariant(s: State) {
    && SideInvariant(s.shots) && SideInvariant(s.reports)
    && (forall r :: Outstanding(s, r) ==> RequestInvariant(s, r))
    && (forall a :: a in s.replies ==> ReplyInvariant(s, a))
    && (forall r :: r in s.issued ==> IssuedInvariant(s, r))
    && Unique(s.issued)
    && (forall a :: a in s.replies ==> a.request !in s.pending)
    && (forall a, b :: a in s.replies && b in s.replies && a.request == b.request ==> a == b)
    && s.progress == |s.shots.removed| + |s.shots.added| + |s.reports.removed| + |s.reports.added|
    && ToldInvariant(s)
    && (!s.Loaded() ==> s.progress == 0)
  }

  // ---------------------------------------------------------------- Every step keeps it

  lemma {:induction false} UniqueCount<T>(xs: seq<T>)
    requires Unique(xs)
    ensures |set x | x in xs| == |xs|
  {
    if xs != [] {
      var n := |xs| - 1;
      UniqueCount(xs[..n]);
      assert (set x | x in xs) == (set x | x in xs[..n]) + {xs[n]};
    }
  }

  lemma SubsetCount<T>(a: set<T>, b: set<T>)
    requires a <= b
    ensures |a| <= |b| && (|a| == |b| ==> a == b)
  {
    assert b == a + (b - a);
  }

  lemma {:induction false} LocalCount(items: seq<Item>)
    requires UniqueKeys(items)
    ensures |LocalKeys(items)| == |items|
  {
    if items != [] {
      var n := |items| - 1;
      LocalCount(items[..n]);
      assert LocalKeys(items) == LocalKeys(items[..n]) + {items[n].key};
    }
  }

  /** Whether a request may be open, in terms of its own collection. */
  ghost predicate OpenFor(x: Side, r: Request) {
    match r
    case Load(_) => x.cloud.None?
    case Remove(_, key) => x.cloud.Some? && key in x.cloud.value && key !in x.removed
    case Upload(_, item) => Emptied(x) && item in x.local && item.key !in x.added
  }

  lemma AppliedSide(x: Side, r: Request)
    requires SideInvariant(x) && OpenFor(x, r) && !r.Load?
    ensures var remote := if r.Remove? then x.remote - {r.key} else x.remote[r.item.key := r.item.content];
            SideInvariant(x.(remote := remote))
  {
  }

  lemma AppliedKeeps(s: State, r: Request)
    requires Invariant(s) && Outstanding(s, r)
    ensures Invariant(Applied(s, r)) && forall q :: Outstanding(s, q) <==> Outstanding(Applied(s, r), q)
  {
    hide SideInvariant, Emptied, KeySet, ToldInvariant, Unique;
    var t := Applied(s, r);
    assert RequestInvariant(s, r);
    if !r.Load? {
      assert OpenFor(s.Of(r.c), r) by { RequestIsOpen(s, r); }
      AppliedSide(s.Of(r.c), r);
    }
    forall q ensures Outstanding(s, q) <==> Outstanding(t, q) { }
    forall q ensures RequestInvariant(s, q) ==> RequestInvariant(t, q)
             ensures IssuedInvariant(s, q) ==> IssuedInvariant(t, q)
    {
      RequestStays(s, t, q);
    }
    forall a | a in t.replies ensures ReplyInvariant(t, a) {
      assert Outstanding(s, a.request);
      ReplyStays(s, r, a);
    }
    ToldStays(s, t);
  }

  /** What the remote holds does not decide which requests may be open. */
  lemma RequestStays(s: State, t: State, q: Request)
    requires t.shots == s.shots.(remote := t.shots.remote) && t.reports == s.reports.(remote := t.reports.remote)
    ensures RequestInvariant(s, q) ==> RequestInvariant(t, q)
    ensures IssuedInvariant(s, q) ==> IssuedInvariant(t, q)
  {
  }

  lemma RequestIsOpen(s: State, r: Request)
    requires RequestInvariant(s, r)
    ensures OpenFor(s.Of(r.c), r)
  {
  }

  lemma ToldStays(s: State, t: State)
    requires ToldInvariant(s) && t.told == s.told && t.progress == s.progress
    requires forall c :: t.Of(c).cloud == s.Of(c).cloud && t.Of(c).local == s.Of(c).local
    ensures ToldInvariant(t)
  {
    assert t.Of(Shot).cloud == s.Of(Shot).cloud && t.Of(Report).cloud == s.Of(Report).cloud;
    assert t.Of(Shot).local == s.Of(Shot).local && t.Of(Report).local == s.Of(Report).local;
  }

  /** Carrying out an open request leaves what other replies say true. */
  lemma ReplyStays(s: State, r: Request, a: Reply)
    requires RequestInvariant(s, r) && RequestInvariant(s, a.request) && ReplyInvariant(s, a)
    ensures ReplyInvariant(Applied(s, r), a)
  {
    hide Unique, KeySet;
    if !r.Load? && a.request.c == r.c {
      if a.request.Remove? && r.Upload? { NotEmptied(s.Of(r.c), a.request.key); }
      if a.request.Upload? && r.Remove? { NotEmptied(s.Of(r.c), r.key); }
    }
  }

  lemma NotEmptied(x: Side, key: Key)
    requires x.cloud.Some? && key in x.cloud.value && key !in x.removed
    ensures !Emptied(x)
  {
    assert key in KeySet(x.cloud.value);
  }

  /** A request carried out, or refused, becomes a reply. */
  lemma MovedKeeps(s: State, a: Reply)
    requires Invariant(s) && a.request in s.pending && ReplyInvariant(s, a)
    ensures Invariant(s.(pending := s.pending - {a.request}, replies := s.replies + {a}))
  {
    hide SideInvariant, Emptied, ToldInvariant, Unique, ReplyInvariant;
    var t := s.(pending := s.pending - {a.request}, replies := s.replies + {a});
    assert Outstanding(s, a.request);
    forall q | Outstanding(t, q) ensures RequestInvariant(t, q) { assert Outstanding(s, q); }
    forall b | b in t.replies ensures ReplyInvariant(t, b) { SameSides(s, t, b); }
    ToldStays(s, t);
  }

  lemma SameSides(s: State, t: State, a: Reply)
    requires ReplyInvariant(s, a) && s.shots == t.shots && s.reports == t.reports
    ensures ReplyInvariant(t, a)
  {
  }

  lemma SettledKeeps(s: State, r: Request, outcome: Outcome, keys: seq<Key>)
    requires Invariant(s) && Enabled(s, Settle(r, outcome, keys))
    ensures Invariant(Settled(s, r, outcome, keys))
  {
    hide Invariant, SideInvariant, RequestInvariant;
    assert Outstanding(s, r);
    var t := if outcome == Rejected then s else Applied(s, r);
    if outcome != Rejected { AppliedKeeps(s, r); }
    MovedKeeps(t, Reply(r, outcome == Acknowledged, keys));
  }

  /** Leaving one reply behind. */
  lemma Delivered(s: State, a: Reply)
    requires Invariant(s) && a in s.replies
    ensures Invariant(s.(replies := s.replies - {a}))
    ensures RequestInvariant(s, a.request) && ReplyInvariant(s, a)
    ensures !Outstanding(s.(replies := s.replies - {a}), a.request)
  {
    hide SideInvariant, Emptied, Unique;
    var t := s.(replies := s.replies - {a});
    assert Outstanding(s, a.request);
    forall q | Outstanding(t, q) ensures RequestInvariant(t, q) { assert Outstanding(s, q); }
    forall b | b in t.replies ensures ReplyInvariant(t, b) { SameSides(s, t, b); }
    ToldStays(s, t);
  }

  lemma IssueKeeps(s: State, requests: seq<Request>)
    requires Invariant(s) && Unique(requests)
    requires forall r :: r in requests ==>
               RequestInvariant(s, r) && IssuedInvariant(s, r) && r !in s.issued && !Outstanding(s, r)
    ensures Invariant(Issue(s, requests))
  {
    hide SideInvariant, Emptied, Unique;
    var t := Issue(s, requests);
    forall q | Outstanding(t, q) ensures RequestInvariant(t, q) {
      if q in requests { assert RequestInvariant(s, q); } else { assert Outstanding(s, q); }
    }
    forall a | a in t.replies ensures ReplyInvariant(t, a) && a.request !in t.pending {
      assert Outstanding(s, a.request);
      SameSides(s, t, a);
    }
    forall r | r in t.issued ensures IssuedInvariant(t, r) { assert IssuedInvariant(s, r); }
    UniqueBoth(s.issued, requests);
    ToldStays(s, t);
  }

  lemma UniqueBoth<T>(a: seq<T>, b: seq<T>)
    requires Unique(a) && Unique(b) && forall x :: x in b ==> x !in a
    ensures Unique(a + b)
  {
    var c := a + b;
    forall i, j | 0 <= i < j < |c| ensures c[i] != c[j] {
      if j >= |a| {
        assert c[j] == b[j - |a|] && b[j - |a|] in b;
        if i < |a| { assert c[i] == a[i] && a[i] in a; }
      }
    }
  }

  // ---------------------------------------------------------------- The handlers

  lemma LoadedSide(x: Side, keys: seq<Key>)
    requires SideInvariant(x) && x.cloud.None? && Unique(keys) && x.remote.Keys == KeySet(keys)
    ensures SideInvariant(x.(cloud := Some(keys))) && !Emptied(x.(cloud := Some(keys)))
  {
    if keys != [] { assert keys[0] in KeySet(keys); }
  }

  lemma LoadedKeeps(s: State, c: Collection, keys: seq<Key>)
    requires Invariant(s) && s.Of(c).cloud.None? && Unique(keys) && s.Of(c).remote.Keys == KeySet(keys)
    requires !Outstanding(s, Load(c))
    ensures Invariant(OnLoaded(s, c, keys))
  {
    hide SideInvariant, Unique, KeySet;
    var t := s.With(c, s.Of(c).(cloud := Some(keys)));
    LoadedSide(s.Of(c), keys);
    assert !s.Loaded() && s.progress == 0;
    NothingRequested(s);
    assert Invariant(t) by {
      forall q | Outstanding(t, q) ensures RequestInvariant(t, q) { assert Outstanding(s, q); }
      forall a | a in t.replies ensures ReplyInvariant(t, a) { assert Outstanding(s, a.request); }
      NothingTold(s, t);
    }
    if t.Loaded() {
      var requests := Removals(Shot, t.shots.cloud.value) + Removals(Report, t.reports.cloud.value);
      forall r | r in requests
        ensures RequestInvariant(t, r) && IssuedInvariant(t, r) && r !in s.issued && !Outstanding(t, r)
      {
        assert Outstanding(t, r) ==> Outstanding(s, r);
      }
      RemovalsUnique(t);
      IssueKeeps(t, requests);
    }
  }

  lemma NothingRequested(s: State)
    requires Invariant(s) && !s.Loaded()
    ensures forall r :: r in s.issued ==> r.Load?
    ensures forall r :: Outstanding(s, r) ==> r.Load?
    ensures s.shots.removed == {} && s.reports.removed == {}
  {
    hide SideInvariant, ToldInvariant, Unique;
  }

  lemma NothingTold(s: State, t: State)
    requires ToldInvariant(s) && !s.Loaded() && t.told == s.told && t.progress == s.progress
    ensures ToldInvariant(t)
  {
  }

  lemma RemovalsUnique(t: State)
    requires t.Loaded() && SideInvariant(t.shots) && SideInvariant(t.reports)
    ensures Unique(Removals(Shot, t.shots.cloud.value) + Removals(Report, t.reports.cloud.value))
  {
    UniqueBoth(Removals(Shot, t.shots.cloud.value), Removals(Report, t.reports.cloud.value));
  }

  /** One more acknowledged deletion; with the last one the remote collection is empty. */
  lemma RemovedSide(x: Side, key: Key)
    requires SideInvariant(x) && OpenFor(x, Remove(Shot, key)) && key !in x.remote
    ensures var y := x.(removed := x.removed + {key});
            && SideInvariant(y) && |y.removed| == |x.removed| + 1 && y.added == {}
            && (Emptied(y) <==> |y.removed| == |y.cloud.value|)
            && (Emptied(y) ==> y.remote == map[])
  {
    var y := x.(removed := x.removed + {key});
    NotEmptied(x, key);
    assert key in KeySet(x.cloud.value);
    UniqueCount(x.cloud.value);
    SubsetCount(y.removed, KeySet(x.cloud.value));
    if Emptied(y) { assert y.remote.Keys == {}; }
  }

  lemma RemovedKeeps(s: State, c: Collection, key: Key)
    requires Invariant(s) && RequestInvariant(s, Remove(c, key)) && key !in s.Of(c).remote
    requires !Outstanding(s, Remove(c, key))
    ensures Invariant(OnRemoved(s, c, key))
  {
    hide SideInvariant, Unique, KeySet, ToldInvariant, Emptied;
    var x := s.Of(c);
    var y := x.(removed := x.removed + {key});
    var t := Advanced(s.With(c, y));
    RemovedSide(x, key);
    assert !Emptied(x) by { NotEmptied(x, key); }
    assert Invariant(t) by {
      forall q | Outstanding(t, q) ensures RequestInvariant(t, q) { assert Outstanding(s, q); }
      forall r | r in t.issued ensures IssuedInvariant(t, r) { assert IssuedInvariant(s, r); }
      forall a | a in t.replies ensures ReplyInvariant(t, a) { assert ReplyInvariant(s, a); }
      AdvancedTold(s, s.With(c, y));
    }
    if |y.removed| == |y.cloud.value| {
      var requests := Uploads(c, y.local);
      forall r | r in requests
        ensures RequestInvariant(t, r) && IssuedInvariant(t, r) && r !in t.issued && !Outstanding(t, r)
      {
        assert Outstanding(t, r) ==> Outstanding(s, r);
      }
      UploadsUnique(c, y);
      IssueKeeps(t, requests);
    }
  }

  lemma UploadsUnique(c: Collection, x: Side)
    requires SideInvariant(x)
    ensures Unique(Uploads(c, x.local))
  {
  }

  lemma AdvancedTold(s: State, t: State)
    requires ToldInvariant(s) && s.Loaded() && t.told == s.told && t.progress == s.progress
    requires forall c :: t.Of(c).cloud == s.Of(c).cloud && t.Of(c).local == s.Of(c).local
    ensures t.Loaded() && ToldInvariant(Advanced(t))
  {
    assert t.Of(Shot).cloud == s.Of(Shot).cloud && t.Of(Report).cloud == s.Of(Report).cloud;
    assert t.Of(Shot).local == s.Of(Shot).local && t.Of(Report).local == s.Of(Report).local;
    var u := Advanced(t);
    assert u.told[|u.told| - 1] == Progress(u.progress, u.Total());
  }

  lemma UploadedSide(x: Side, item: Item)
    requires SideInvariant(x) && OpenFor(x, Upload(Shot, item)) && item.key in x.remote
    ensures var y := x.(added := x.added + {item.key});
            SideInvariant(y) && |y.added| == |x.added| + 1 && Emptied(y)
    ensures forall i :: i in x.local && i.key == item.key ==> i == item
  {
    forall i | i in x.local && i.key == item.key ensures i == item { SameKey(x.local, i, item); }
  }

  lemma UploadedKeeps(s: State, c: Collection, item: Item)
    requires Invariant(s) && RequestInvariant(s, Upload(c, item)) && item.key in s.Of(c).remote
    requires !Outstanding(s, Upload(c, item))
    ensures Invariant(OnUploaded(s, c, item))
  {
    hide SideInvariant, Unique, KeySet, ToldInvariant, Emptied;
    var x := s.Of(c);
    var y := x.(added := x.added + {item.key});
    var t := OnUploaded(s, c, item);
    UploadedSide(x, item);
    forall q | Outstanding(t, q) ensures RequestInvariant(t, q) {
      assert Outstanding(s, q);
      SameKind(x, y);
    }
    forall r | r in t.issued ensures IssuedInvariant(t, r) { assert IssuedInvariant(s, r); }
    forall a | a in t.replies ensures ReplyInvariant(t, a) { assert ReplyInvariant(s, a); }
    AdvancedTold(s, s.With(c, y));
  }

  lemma SameKind(x: Side, y: Side)
    requires x.cloud == y.cloud && x.removed == y.removed
    ensures Emptied(x) <==> Emptied(y)
  {
  }

  lemma SameKey(items: seq<Item>, a: Item, b: Item)
    requires UniqueKeys(items) && a in items && b in items && a.key == b.key
    ensures a == b
  {
    var i :| 0 <= i < |items| && items[i] == a;
    var j :| 0 <= j < |items| && items[j] == b;
  }

  lemma FailureKeeps(s: State)
    requires Invariant(s)
    ensures Invariant(s.(told := s.told + [Error]))
  {
    hide SideInvariant, Unique;
    var t := s.(told := s.told + [Error]);
    forall q | Outstanding(t, q) ensures RequestInvariant(t, q) { assert Outstanding(s, q); }
    forall r | r in t.issued ensures IssuedInvariant(t, r) { assert IssuedInvariant(s, r); }
    forall a | a in t.replies ensures ReplyInvariant(t, a) { SameSides(s, t, a); }
  }

  lemma StepKeeps(s: State, step: Step)
    requires Invariant(s) && Enabled(s, step)
    ensures Invariant(Next(s, step))
  {
    hide Invariant, OnLoaded, OnRemoved, OnUploaded, Settled;
    match step {
      case Settle(r, outcome, keys) => SettledKeeps(s, r, outcome, keys);
      case Answer(a) =>
        Delivered(s, a);
        var t := s.(replies := s.replies - {a});
        if !a.success {
          FailureKeeps(t);
        } else {
          match a.request {
            case Load(c) => LoadedKeeps(t, c, a.keys);
            case Remove(c, key) => RemovedKeeps(t, c, key);
            case Upload(c, item) => UploadedKeeps(t, c, item);
          }
        }
    }
  }

  // ---------------------------------------------------------------- Safety

  lemma {:induction false} RunKeeps(s: State, steps: seq<Step>)
    requires Invariant(s) && Runs(s, steps)
    ensures Invariant(Run(s, steps))
    decreases |steps|
  {
    hide Invariant, Enabled, Next;
    if steps != [] {
      StepKeeps(s, steps[0]);
      RunKeeps(Next(s, steps[0]), steps[1..]);
    }
  }

  lemma InitialIsInvariant(s: State)
    requires Initial(s)
    ensures Invariant(s)
  {
    assert s.Of(Shot) == s.shots && s.Of(Report) == s.reports;
    forall r | Outstanding(s, r) ensures RequestInvariant(s, r) { }
  }

  /** The remote holds exactly the local objects. */
  ghost predicate Mirrors(x: Side) {
    forall k, v :: (k in x.remote && x.remote[k] == v) <==> Item(k, v) in x.local
  }

  lemma SideCounts(x: Side)
    requires SideInvariant(x) && x.cloud.Some?
    ensures |x.removed| <= |x.cloud.value| && |x.added| <= |x.local|
    ensures |x.removed| == |x.cloud.value| && |x.added| == |x.local| ==>
              Mirrors(x) && (x.cloud.value == [] ==> x.local == [])
  {
    UniqueCount(x.cloud.value);
    LocalCount(x.local);
    SubsetCount(x.removed, KeySet(x.cloud.value));
    SubsetCount(x.added, LocalKeys(x.local));
    if |x.removed| == |x.cloud.value| && |x.added| == |x.local| {
      if x.cloud.value != [] {
        forall k, v | Item(k, v) in x.local ensures k in x.remote && x.remote[k] == v {
          assert Item(k, v).key in LocalKeys(x.local);
          SameKey(x.local, Item(k, v), Item(k, x.remote[k]));
        }
      }
    }
  }

  lemma ProgressIsBounded(s: State)
    requires Invariant(s) && s.Loaded()
    ensures s.progress <= s.Total()
    ensures s.progress == s.Total() ==>
              forall c :: Mirrors(s.Of(c)) && (s.Of(c).cloud.value == [] ==> s.Of(c).local == [])
  {
    hide SideInvariant, Mirrors, Unique;
    SideCounts(s.shots);
    SideCounts(s.reports);
  }

  /** In every interleaving of replies and failures: no request is issued twice; no upload is issued before
      all deletions of its collection were acknowledged; the progress told rises and stays within the total;
      and once it is told to be complete, both remote collections hold exactly the local snapshots. */
  lemma Safety(s: State, steps: seq<Step>)
    requires Initial(s) && Runs(s, steps)
    ensures var t := Run(s, steps);
            && Unique(t.issued)
            && (forall c, item :: Upload(c, item) in t.issued ==> Emptied(t.Of(c)))
            && (forall k :: 0 <= k < |t.told| && t.told[k].Progress? ==> t.told[k].finished <= t.told[k].total)
            && (forall j, k :: 0 <= j < k < |t.told| && t.told[j].Progress? && t.told[k].Progress? ==>
                  t.told[j].finished < t.told[k].finished && t.told[j].total == t.told[k].total)
            && (forall k :: 0 <= k < |t.told| && t.told[k].Progress? && t.told[k].finished == t.told[k].total ==>
                  Mirrors(t.shots) && Mirrors(t.reports))
  {
    hide Runs, Run, SideInvariant, Emptied, Mirrors, Unique;
    InitialIsInvariant(s);
    RunKeeps(s, steps);
    var t := Run(s, steps);
    forall c, item | Upload(c, item) in t.issued ensures Emptied(t.Of(c)) {
      assert IssuedInvariant(t, Upload(c, item));
    }
    if t.Loaded() {
      ProgressIsBounded(t);
      assert Mirrors(t.Of(Shot)) == Mirrors(t.shots) && Mirrors(t.Of(Report)) == Mirrors(t.reports);
    }
  }

  // ---------------------------------------------------------------- What the caller hears

  /** How many deliveries of one kind there are among the steps. */
  function Deliveries(steps: seq<Step>, success: bool, load: bool): nat {
    if steps == [] then 0
    else
      Deliveries(steps[1..], success, load) +
      if steps[0].Answer? && steps[0].reply.success == success && steps[0].reply.request.Load? == load then 1 else 0
  }

  /** The caller hears once that the backup started, then of every failure, and of the progress with every
      deletion and every upload that succeeded; of nothing else. */
  lemma {:induction false} EveryReplyIsTold(s: State, steps: seq<Step>)
    requires Runs(s, steps)
    ensures var t := Run(s, steps);
            var failures := Deliveries(steps, false, false) + Deliveries(steps, false, true);
            && s.told <= t.told
            && |t.told| == |s.told| + failures + Deliveries(steps, true, false)
            && multiset(t.told)[Error] == multiset(s.told)[Error] + failures
            && t.progress == s.progress + Deliveries(steps, true, false)
    decreases |steps|
  {
    hide Enabled, Next;
    if steps != [] {
      StepTells(s, steps[0]);
      EveryReplyIsTold(Next(s, steps[0]), steps[1..]);
    }
  }

  lemma StepTells(s: State, step: Step)
    requires Enabled(s, step)
    ensures var t := Next(s, step);
            match step
            case Settle(_, _, _) => t.told == s.told && t.progress == s.progress
            case Answer(a) =>
              if !a.success then t.told == s.told + [Error] && t.progress == s.progress
              else if a.request.Load? then t.told == s.told && t.progress == s.progress
              else t.progress == s.progress + 1 && t.told == s.told + [Progress(t.progress, s.Total())]
  {
    hide KeySet, Unique, Removals, Uploads, Members;
  }

  // ---------------------------------------------------------------- When a backup can complete

  /** Deletions start the uploads, so a collection without anything to delete must have nothing to upload;
      and progress is only told when a deletion or an upload was acknowledged, so there must be some. */
  ghost predicate CanComplete(s: State) {
    && (forall c :: s.Of(c).remote == map[] ==> s.Of(c).local == [])
    && exists c :: s.Of(c).remote != map[]
  }

  /** What was downloaded is what was there at first. */
  ghost predicate Origin(s: State, t: State, c: Collection) {
    && t.Of(c).local == s.Of(c).local
    && (!t.Loaded() ==> t.Of(c).remote == s.Of(c).remote)
    && (t.Of(c).cloud.Some? ==> KeySet(t.Of(c).cloud.value) == s.Of(c).remote.Keys)
  }

  lemma OriginStays(s: State, t: State, step: Step, c: Collection)
    requires Invariant(t) && Enabled(t, step) && Origin(s, t, c)
    ensures Origin(s, Next(t, step), c)
  {
    hide Invariant, SideInvariant, OnLoaded, OnRemoved, OnUploaded, Settled, Origin, RequestInvariant,
      ReplyInvariant;
    match step {
      case Settle(r, outcome, keys) =>
        assert RequestInvariant(t, r) by { OpenRequest(t, r); }
        SettledOrigin(s, t, r, outcome, keys, c);
      case Answer(a) =>
        assert RequestInvariant(t, a.request) && ReplyInvariant(t, a) by { Delivered(t, a); }
        AnsweredOrigin(s, t, a, c);
    }
  }

  lemma OpenRequest(s: State, r: Request)
    requires Invariant(s) && r in s.pending
    ensures RequestInvariant(s, r)
  {
    assert Outstanding(s, r);
  }

  lemma SettledOrigin(s: State, t: State, r: Request, outcome: Outcome, keys: seq<Key>, c: Collection)
    requires RequestInvariant(t, r) && Origin(s, t, c)
    ensures Origin(s, Settled(t, r, outcome, keys), c)
  {
    hide KeySet, Emptied;
  }

  lemma AnsweredOrigin(s: State, t: State, a: Reply, c: Collection)
    requires RequestInvariant(t, a.request) && ReplyInvariant(t, a) && Origin(s, t, c)
    requires a.success && !a.request.Load? ==> t.Loaded()
    ensures Origin(s, Answered(t, a), c)
  {
    hide KeySet, Emptied, Unique, Removals, Uploads;
  }

  lemma {:induction false} OriginKept(s: State, t: State, steps: seq<Step>)
    requires Invariant(t) && Runs(t, steps) && forall c :: Origin(s, t, c)
    ensures forall c :: Origin(s, Run(t, steps), c)
    decreases |steps|
  {
    hide Invariant, Enabled, Next, Origin;
    if steps != [] {
      StepKeeps(t, steps[0]);
      forall c ensures Origin(s, Next(t, steps[0]), c) { OriginStays(s, t, steps[0], c); }
      OriginKept(s, Next(t, steps[0]), steps[1..]);
    }
  }

  /** The caller was told that everything is done, which is what it waits for. */
  ghost predicate Finished(s: State) {
    exists k :: 0 <= k < |s.told| && s.told[k].Progress? && s.told[k].finished == s.told[k].total
  }

  lemma FinishedMeans(s: State)
    requires Invariant(s)
    ensures Finished(s) <==> s.Loaded() && s.progress == s.Total() > 0
  {
    hide SideInvariant, Unique;
    if s.Loaded() {
      ProgressIsBounded(s);
      if s.progress == s.Total() > 0 {
        var k :| 0 <= k < |s.told| && s.told[k] == Progress(s.progress, s.Total());
      }
    }
  }

  lemma FinishedCould(s: State, steps: seq<Step>)
    requires Initial(s) && Runs(s, steps) && Finished(Run(s, steps))
    ensures CanComplete(s)
  {
    hide Runs, Run, Invariant, Initial, Mirrors, Finished;
    var t := Run(s, steps);
    InitialIsInvariant(s);
    OriginStarts(s);
    RunKeeps(s, steps);
    OriginKept(s, s, steps);
    FinishedMeans(t);
    ProgressIsBounded(t);
    forall c
      ensures s.Of(c).remote == map[] ==> s.Of(c).local == [] && t.Of(c).cloud.value == [] && t.Of(c).local == []
    {
      assert Origin(s, t, c);
      if s.Of(c).remote == map[] { NoKeys(t.Of(c).cloud.value); }
    }
    assert t.Of(Shot) == t.shots && t.Of(Report) == t.reports;
    assert s.Of(Shot).remote != map[] || s.Of(Report).remote != map[];
  }

  lemma NoKeys(keys: seq<Key>)
    requires KeySet(keys) == {}
    ensures keys == []
  {
    NonemptyHasMember(keys);
    assert forall k :: k in keys ==> k in KeySet(keys);
  }

  lemma OriginStarts(s: State)
    requires Initial(s)
    ensures forall c :: Origin(s, s, c)
  {
  }

  // ---------------------------------------------------------------- A run without failures completes

  /** Whatever is left to do is under way. */
  ghost predicate Healthy(s: State) {
    && s.Loaded() && s.replies == {}
    && (forall c, k :: k in s.Of(c).cloud.value && k !in s.Of(c).removed ==> Remove(c, k) in s.pending)
    && (forall c, i :: Emptied(s.Of(c)) && i in s.Of(c).local && i.key !in s.Of(c).added ==> Upload(c, i) in s.pending)
  }

  lemma HealthyFinishes(s: State)
    requires Invariant(s) && Healthy(s) && s.pending == {}
    requires forall c :: s.Of(c).cloud.value == [] ==> s.Of(c).local == []
    requires exists c :: s.Of(c).cloud.value != []
    ensures Finished(s)
  {
    hide ToldInvariant, Finished;
    forall c ensures |s.Of(c).removed| == |s.Of(c).cloud.value| && |s.Of(c).added| == |s.Of(c).local| {
      AllDone(s, c);
    }
    assert s.Of(Shot) == s.shots && s.Of(Report) == s.reports;
    FinishedMeans(s);
  }

  lemma AllDone(s: State, c: Collection)
    requires Healthy(s) && s.pending == {} && SideInvariant(s.Of(c))
    requires s.Of(c).cloud.value == [] ==> s.Of(c).local == []
    ensures |s.Of(c).removed| == |s.Of(c).cloud.value| && |s.Of(c).added| == |s.Of(c).local|
  {
    var x := s.Of(c);
    UniqueCount(x.cloud.value);
    assert x.removed == KeySet(x.cloud.value);
    LocalCount(x.local);
    if x.cloud.value != [] {
      forall k | k in LocalKeys(x.local) ensures k in x.added { }
      assert x.added == LocalKeys(x.local);
    }
  }

  /** Carrying out and answering one open request. */
  lemma OneDone(s: State, r: Request) returns (steps: seq<Step>)
    requires Invariant(s) && Healthy(s) && r in s.pending
    ensures Runs(s, steps) && Invariant(Run(s, steps)) && Healthy(Run(s, steps))
    ensures var t := Run(s, steps);
            t.progress == s.progress + 1 && forall c :: t.Of(c).cloud == s.Of(c).cloud && t.Of(c).local == s.Of(c).local
  {
    hide Invariant, Healthy, Settled, Answered, RequestInvariant;
    var a := Reply(r, true, []);
    var first, second := Settle(r, Acknowledged, []), Answer(a);
    assert RequestInvariant(s, r) by { OpenRequest(s, r); }
    HealthyRequest(s, r);
    var t := Next(s, first);
    StepKeeps(s, first);
    StepKeeps(t, second);
    HealthyStays(s, r);
    steps := [first, second];
    RunTwo(s, first, second);
  }

  lemma RunTwo(s: State, a: Step, b: Step)
    requires Enabled(s, a) && Enabled(Next(s, a), b)
    ensures Runs(s, [a, b]) && Run(s, [a, b]) == Next(Next(s, a), b)
  {
    hide Enabled, Next;
    RunsNothing(Next(Next(s, a), b));
    assert [b][1..] == [] && [a, b][1..] == [b];
    assert Run(Next(s, a), [b]) == Next(Next(s, a), b);
  }

  /** The state behind the deletion or the upload. */
  lemma HealthyRequest(s: State, r: Request)
    requires Healthy(s) && r in s.pending && RequestInvariant(s, r)
    ensures !r.Load? && Enabled(s, Settle(r, Acknowledged, []))
    ensures var t := Settled(s, r, Acknowledged, []);
            && Enabled(t, Answer(Reply(r, true, [])))
            && t == Applied(s, r).(pending := s.pending - {r}, replies := {Reply(r, true, [])})
  {
    hide Emptied;
  }

  lemma HealthyStays(s: State, r: Request)
    requires Invariant(s) && Healthy(s) && r in s.pending
    requires Enabled(Settled(s, r, Acknowledged, []), Answer(Reply(r, true, [])))
    ensures var t := Answered(Settled(s, r, Acknowledged, []), Reply(r, true, []));
            && Healthy(t) && t.progress == s.progress + 1
            && forall c :: t.Of(c).cloud == s.Of(c).cloud && t.Of(c).local == s.Of(c).local
  {
    hide Invariant, SideInvariant, Healthy, Emptied, OnRemoved, OnUploaded, RequestInvariant;
    assert RequestInvariant(s, r) by { OpenRequest(s, r); }
    HealthyRequest(s, r);
    var u := Applied(s, r).(pending := s.pending - {r}, replies := {});
    assert Settled(s, r, Acknowledged, []).(replies := {Reply(r, true, [])} - {Reply(r, true, [])}) == u;
    match r {
      case Remove(c, key) =>
        assert SideInvariant(s.Of(c)) by { SideOf(s, c); }
        HealthyRemoved(s, u, c, key);
      case Upload(c, item) => HealthyUploaded(s, u, c, item);
    }
  }

  lemma SideOf(s: State, c: Collection)
    requires Invariant(s)
    ensures SideInvariant(s.Of(c))
  {
  }

  lemma HealthyRemoved(s: State, u: State, c: Collection, key: Key)
    requires Healthy(s) && SideInvariant(s.Of(c)) && RequestInvariant(s, Remove(c, key))
    requires u == Applied(s, Remove(c, key)).(pending := s.pending - {Remove(c, key)}, replies := {})
    ensures u.Loaded()
    ensures var t := OnRemoved(u, c, key);
            && Healthy(t) && t.progress == s.progress + 1
            && forall c :: t.Of(c).cloud == s.Of(c).cloud && t.Of(c).local == s.Of(c).local
  {
    hide SideInvariant, Emptied;
    var x, t := s.Of(c), OnRemoved(u, c, key);
    AppliedSide(x, Remove(c, key));
    RemovedSide(u.Of(c), key);
    assert t.Of(c) == u.Of(c).(removed := x.removed + {key});
    assert Emptied(t.Of(c)) ==> forall i :: i in x.local ==> Upload(c, i) in t.pending by { UploadsAll(c, x.local); }
    forall d | d != c ensures t.Of(d) == s.Of(d) { }
  }

  lemma UploadsAll(c: Collection, items: seq<Item>)
    ensures forall i :: i in items ==> Upload(c, i) in Uploads(c, items)
  {
    forall i | i in items ensures Upload(c, i) in Uploads(c, items) {
      var k :| 0 <= k < |items| && items[k] == i;
      assert Uploads(c, items)[k] == Upload(c, i);
    }
  }

  lemma HealthyUploaded(s: State, u: State, c: Collection, item: Item)
    requires Healthy(s) && RequestInvariant(s, Upload(c, item))
    requires u == Applied(s, Upload(c, item)).(pending := s.pending - {Upload(c, item)}, replies := {})
    ensures u.Loaded()
    ensures var t := OnUploaded(u, c, item);
            && Healthy(t) && t.progress == s.progress + 1
            && forall c :: t.Of(c).cloud == s.Of(c).cloud && t.Of(c).local == s.Of(c).local
  {
    hide Emptied;
    var x, t := s.Of(c), OnUploaded(u, c, item);
    SameKind(x, t.Of(c));
    forall d | d != c ensures t.Of(d) == s.Of(d) { }
  }

  lemma {:induction false} Finish(s: State) returns (steps: seq<Step>)
    requires Invariant(s) && Healthy(s)
    requires forall c :: s.Of(c).cloud.value == [] ==> s.Of(c).local == []
    requires exists c :: s.Of(c).cloud.value != []
    ensures Runs(s, steps) && Finished(Run(s, steps))
    decreases s.Total() - s.progress
  {
    hide Invariant, Runs, Run, Finished;
    ProgressIsBounded(s);
    if s.pending == {} {
      HealthyFinishes(s);
      steps := [];
      RunsNothing(s);
    } else {
      var r :| r in s.pending;
      var two := OneDone(s, r);
      ProgressIsBounded(Run(s, two));
      SameTotal(s, Run(s, two));
      var rest := Finish(Run(s, two));
      steps := two + rest;
      RunsOn(s, two, rest);
    }
  }

  lemma SameTotal(s: State, t: State)
    requires s.Loaded() && forall c :: t.Of(c).cloud == s.Of(c).cloud && t.Of(c).local == s.Of(c).local
    ensures t.Loaded() && t.Total() == s.Total()
  {
    assert t.Of(Shot).cloud == s.Of(Shot).cloud && t.Of(Report).cloud == s.Of(Report).cloud;
    assert t.Of(Shot).local == s.Of(Shot).local && t.Of(Report).local == s.Of(Report).local;
  }

  lemma RunsNothing(s: State)
    ensures Runs(s, []) && Run(s, []) == s
  {
  }

  lemma {:induction false} RunsOn(s: State, a: seq<Step>, b: seq<Step>)
    requires Runs(s, a) && Runs(Run(s, a), b)
    ensures Runs(s, a + b) && Run(s, a + b) == Run(Run(s, a), b)
    decreases |a|
  {
    if a == [] {
      assert a + b == b;
    } else {
      RunsOn(Next(s, a[0]), a[1..], b);
      assert (a + b)[1..] == a[1..] + b;
    }
  }

  lemma {:induction false} Listing(keys: set<Key>) returns (list: seq<Key>)
    ensures Unique(list) && KeySet(list) == keys
  {
    if keys == {} {
      list := [];
    } else {
      var k :| k in keys;
      var rest := Listing(keys - {k});
      assert k !in KeySet(rest);
      list := [k] + rest;
      assert KeySet(list) == {k} + KeySet(rest);
    }
  }

  /** One download, carried out and answered. */
  lemma Downloads(s: State, c: Collection) returns (steps: seq<Step>)
    requires Invariant(s) && Load(c) in s.pending && s.replies == {}
    requires forall d :: s.Of(d).cloud.None? ==> Load(d) in s.pending
    ensures Runs(s, steps) && Invariant(Run(s, steps))
    ensures var t := Run(s, steps);
            && t.replies == {} && t.Of(c).cloud.Some?
            && (forall d :: d != c ==> t.Of(d).cloud == s.Of(d).cloud)
            && (forall d :: t.Of(d).cloud.None? ==> Load(d) in t.pending)
            && (t.Loaded() ==> Healthy(t))
  {
    hide Invariant, SideInvariant, Runs, Run, Emptied, KeySet, Unique;
    var keys := Listing(s.Of(c).remote.Keys);
    var a := Reply(Load(c), true, keys);
    var first, second := Settle(Load(c), Acknowledged, keys), Answer(a);
    var t := Next(s, first);
    StepKeeps(s, first);
    StepKeeps(t, second);
    RunTwo(s, first, second);
    steps := [first, second];
    var u := Next(t, second);
    assert u.replies == {};
    if u.Loaded() {
      assert !Emptied(u.Of(Shot)) && !Emptied(u.Of(Report)) && u.Of(Shot).removed == u.Of(Report).removed == {} by {
        JustLoaded(s, c, keys);
      }
      RemovalsAll(Shot, u.shots.cloud.value);
      RemovalsAll(Report, u.reports.cloud.value);
    }
  }

  lemma JustLoaded(s: State, c: Collection, keys: seq<Key>)
    requires Invariant(s) && Load(c) in s.pending
    ensures s.Of(Shot).removed == s.Of(Report).removed == {}
    ensures forall x: Side :: x.removed == {} ==> !Emptied(x)
  {
    OpenRequest(s, Load(c));
    NothingRequested(s);
    forall x: Side | x.removed == {} ensures !Emptied(x) {
      if x.cloud.Some? && KeySet(x.cloud.value) == {} { NoKeys(x.cloud.value); }
    }
  }

  lemma RemovalsAll(c: Collection, keys: seq<Key>)
    ensures forall k :: k in keys ==> Remove(c, k) in Removals(c, keys)
  {
    forall k | k in keys ensures Remove(c, k) in Removals(c, keys) {
      var j :| 0 <= j < |keys| && keys[j] == k;
      assert Removals(c, keys)[j] == Remove(c, k);
    }
  }

  /** A backup can run until it is told to be complete exactly when there is something to delete, and no
      collection has something to upload but nothing to delete first. */
  lemma CompletionIff(s: State) returns (steps: seq<Step>)
    requires Initial(s)
    ensures CanComplete(s) ==> Runs(s, steps) && Finished(Run(s, steps))
    ensures !CanComplete(s) ==> forall other :: Runs(s, other) ==> !Finished(Run(s, other))
  {
    hide Invariant, Runs, Run, Finished, Healthy, Origin;
    InitialIsInvariant(s);
    steps := [];
    if CanComplete(s) {
      var reports := Downloads(s, Report);
      var t := Run(s, reports);
      var shots := Downloads(t, Shot);
      RunsOn(s, reports, shots);
      var u := Run(t, shots);
      OriginStarts(s);
      OriginKept(s, s, reports + shots);
      assert u.Of(Report).cloud.Some? && u.Of(Shot).cloud.Some?;
      forall c | u.Of(c).cloud.value == [] ensures u.Of(c).local == [] { OriginEmpty(s, u, c); }
      var c :| s.Of(c).remote != map[];
      assert Origin(s, u, c);
      OriginNonempty(s, u, c);
      var rest := Finish(u);
      RunsOn(s, reports + shots, rest);
      steps := reports + shots + rest;
    } else {
      forall other | Runs(s, other) ensures !Finished(Run(s, other)) {
        if Finished(Run(s, other)) { FinishedCould(s, other); }
      }
    }
  }

  lemma OriginNonempty(s: State, t: State, c: Collection)
    requires Origin(s, t, c) && s.Of(c).remote != map[] && t.Of(c).cloud.Some?
    ensures t.Of(c).cloud.value != []
  {
    var k :| k in s.Of(c).remote;
    assert k in KeySet(t.Of(c).cloud.value);
  }

  lemma OriginEmpty(s: State, t: State, c: Collection)
    requires Origin(s, t, c) && CanComplete(s) && t.Of(c).cloud == Some([])
    ensures t.Of(c).local == []
  {
    assert s.Of(c).remote.Keys == {};
  }

  // ---------------------------------------------------------------- Every run without failures completes

  ghost predicate Flawless(steps: seq<Step>) {
    forall k :: 0 <= k < |steps| && steps[k].Settle? ==> steps[k].outcome == Acknowledged
  }

  /** No reply tells of a failure, and for whatever is left to do there is a request or a reply on its way. */
  ghost predicate Busy(s: State) {
    && (forall a :: a in s.replies ==> a.success)
    && (forall c :: s.Of(c).cloud.None? ==> Outstanding(s, Load(c)))
    && (s.Loaded() ==>
          forall c, k :: k in s.Of(c).cloud.value && k !in s.Of(c).removed ==> Outstanding(s, Remove(c, k)))
    && (forall c, i :: Emptied(s.Of(c)) && i in s.Of(c).local && i.key !in s.Of(c).added ==>
          Outstanding(s, Upload(c, i)))
  }

  lemma BusySettled(s: State, r: Request, keys: seq<Key>)
    requires Busy(s) && r in s.pending
    ensures Busy(Settled(s, r, Acknowledged, keys))
  {
    hide Emptied;
    var t, a := Settled(s, r, Acknowledged, keys), Reply(r, true, keys);
    assert a in t.replies && a.request == r;
    forall q | Outstanding(s, q) ensures Outstanding(t, q) { StillOutstanding(s, t, r, q); }
    forall c ensures Emptied(t.Of(c)) ==> Emptied(s.Of(c)) { SameKind(s.Of(c), t.Of(c)); }
  }

  lemma StillOutstanding(s: State, t: State, r: Request, q: Request)
    requires Outstanding(s, q) && t.pending == s.pending - {r} && s.replies <= t.replies
    requires exists a :: a in t.replies && a.request == r
    ensures Outstanding(t, q)
  {
    if q != r && q !in s.pending {
      var a :| a in s.replies && a.request == q;
      assert a in t.replies;
    }
  }

  lemma BusyAnswered(s: State, a: Reply)
    requires Invariant(s) && Busy(s) && Enabled(s, Answer(a))
    ensures Busy(Next(s, Answer(a)))
  {
    hide Invariant, SideInvariant, Busy, OnLoaded, OnRemoved, OnUploaded, Emptied;
    Delivered(s, a);
    var t := s.(replies := s.replies - {a});
    SameSides(s, t, a);
    SideOf(t, a.request.c);
    assert a.success by { BusyReply(s, a); }
    match a.request {
      case Load(c) => BusyLoaded(s, t, a, c);
      case Remove(c, key) => BusyRemoved(s, t, a, c, key);
      case Upload(c, item) => BusyUploaded(s, t, a, c, item);
    }
  }

  lemma BusyReply(s: State, a: Reply)
    requires Busy(s) && a in s.replies
    ensures a.success
  {
  }

  /** Without the reply delivered, only its own request is no longer on its way. */
  lemma OthersOutstanding(s: State, a: Reply, u: State)
    requires u.replies == s.replies - {a} && s.pending <= u.pending
    ensures forall q :: Outstanding(s, q) && q != a.request ==> Outstanding(u, q)
  {
    forall q | Outstanding(s, q) && q != a.request ensures Outstanding(u, q) {
      if q !in s.pending {
        var b :| b in s.replies && b.request == q;
        assert b in u.replies;
      }
    }
  }

  lemma BusyLoaded(s: State, t: State, a: Reply, c: Collection)
    requires Invariant(s) && Busy(s) && a in s.replies && a.request == Load(c)
    requires t == s.(replies := s.replies - {a}) && Invariant(t) && t.Of(c).cloud.None?
    ensures Busy(OnLoaded(t, c, a.keys))
  {
    hide Invariant, Emptied;
    var u := OnLoaded(t, c, a.keys);
    OthersOutstanding(s, a, u);
    NothingRequested(t);
    assert forall d :: u.Of(d).removed == {};
    forall x: Side | x.removed == {} ensures !Emptied(x) { NothingRemoved(x); }
    if u.Loaded() {
      RemovalsAll(Shot, u.shots.cloud.value);
      RemovalsAll(Report, u.reports.cloud.value);
    }
  }

  lemma NothingRemoved(x: Side)
    requires x.removed == {}
    ensures !Emptied(x)
  {
    if x.cloud.Some? && KeySet(x.cloud.value) == {} { NoKeys(x.cloud.value); }
  }

  lemma BusyRemoved(s: State, t: State, a: Reply, c: Collection, key: Key)
    requires Invariant(s) && Busy(s) && a in s.replies && a.request == Remove(c, key)
    requires t == s.(replies := s.replies - {a}) && t.Loaded() && SideInvariant(t.Of(c))
    requires RequestInvariant(t, Remove(c, key)) && ReplyInvariant(t, a) && a.success
    ensures Busy(OnRemoved(t, c, key))
  {
    hide Invariant, SideInvariant, Emptied, Unique;
    var x, u := t.Of(c), OnRemoved(t, c, key);
    OthersOutstanding(s, a, u);
    RemovedSide(x, key);
    assert u.Of(c) == x.(removed := x.removed + {key});
    assert Emptied(u.Of(c)) ==> forall i :: i in x.local ==> Upload(c, i) in u.pending by { UploadsAll(c, x.local); }
    forall d | d != c ensures u.Of(d) == s.Of(d) { }
  }

  lemma BusyUploaded(s: State, t: State, a: Reply, c: Collection, item: Item)
    requires Invariant(s) && Busy(s) && a in s.replies && a.request == Upload(c, item)
    requires t == s.(replies := s.replies - {a}) && t.Loaded()
    ensures Busy(OnUploaded(t, c, item))
  {
    hide Invariant, Emptied;
    var x, u := t.Of(c), OnUploaded(t, c, item);
    OthersOutstanding(s, a, u);
    SameKind(x, u.Of(c));
    forall d | d != c ensures u.Of(d) == s.Of(d) { }
  }

  lemma {:induction false} BusyKept(s: State, steps: seq<Step>)
    requires Invariant(s) && Busy(s) && Runs(s, steps) && Flawless(steps)
    ensures Busy(Run(s, steps))
    decreases |steps|
  {
    hide Invariant, Busy, Enabled, Next, Settled;
    if steps != [] {
      StepKeeps(s, steps[0]);
      BusyStep(s, steps[0]);
      BusyKept(Next(s, steps[0]), steps[1..]);
    }
  }

  lemma BusyStep(s: State, step: Step)
    requires Invariant(s) && Busy(s) && Enabled(s, step) && (step.Settle? ==> step.outcome == Acknowledged)
    ensures Busy(Next(s, step))
  {
    hide Invariant, Busy, Settled, Answered;
    match step {
      case Settle(r, _, keys) => BusySettled(s, r, keys);
      case Answer(a) => BusyAnswered(s, a);
    }
  }

  /** In whatever order requests are carried out and answered: if none fails and nothing is left on its way,
      the caller was told that the backup is complete, exactly when it can complete at all. */
  lemma EveryRunCompletes(s: State, steps: seq<Step>)
    requires Initial(s) && Runs(s, steps) && Flawless(steps)
    requires Run(s, steps).pending == {} && Run(s, steps).replies == {}
    ensures Finished(Run(s, steps)) <==> CanComplete(s)
  {
    hide Invariant, Runs, Run, Finished, Busy, Origin;
    InitialIsInvariant(s);
    OriginStarts(s);
    assert Busy(s) by { BusyAtFirst(s); }
    RunKeeps(s, steps);
    BusyKept(s, steps);
    OriginKept(s, s, steps);
    var t := Run(s, steps);
    if CanComplete(s) {
      QuietIsHealthy(t);
      forall c | t.Of(c).cloud.value == [] ensures t.Of(c).local == [] { OriginEmpty(s, t, c); }
      var c :| s.Of(c).remote != map[];
      OriginNonempty(s, t, c);
      HealthyFinishes(t);
    }
    if Finished(t) { FinishedCould(s, steps); }
  }

  lemma BusyAtFirst(s: State)
    requires Initial(s)
    ensures Busy(s)
  {
  }

  lemma QuietIsHealthy(s: State)
    requires Busy(s) && s.pending == {} && s.replies == {}
    ensures Healthy(s) && forall c :: s.Of(c).cloud.Some?
  {
    hide Emptied;
    forall r ensures !Outstanding(s, r) { }
    assert s.Of(Shot) == s.shots && s.Of(Report) == s.reports;
  }

  lemma Prefix(s: seq<Request>, i: nat)
    requires i < |s|
    ensures s[..i + 1] == s[..i] + [s[i]] && Members(s[..i + 1]) == Members(s[..i]) + {s[i]}
  {
    assert s[..i + 1] == s[..i] + [s[i]];
  }

  // ---------------------------------------------------------------- The procedure

  /** A running `backupData`: the captured variables, the remote service, and the requests under way. */
  class BackupTask {
    const local: map<Collection, seq<Item>>
    var remote: map<Collection, Store>
    var cloudData: map<Collection, seq<Key>>
    var deleteCounter: map<Collection, nat>
    var currentProgress: nat
    var pending: set<Request>
    var replies: set<Reply>
    var told: seq<Message>
    ghost var removed: map<Collection, set<Key>>
    ghost var added: map<Collection, set<Key>>
    ghost var issued: seq<Request>

    /** The counters count what was acknowledged. */
    ghost predicate Valid()
      reads this
    {
      Tracks(Shot) && Tracks(Report)
    }

    ghost predicate Tracks(c: Collection)
      reads this
    {
      && c in local && c in remote && c in deleteCounter && c in removed && c in added
      && deleteCounter[c] == |removed[c]|
    }

    lemma TracksEach(c: Collection)
      requires Valid()
      ensures Tracks(c)
    {
    }

    ghost function SideOf(c: Collection): Side
      reads this
      requires Tracks(c)
    {
      Side(local[c], remote[c], if c in cloudData then Some(cloudData[c]) else None, removed[c], added[c])
    }

    ghost function Now(): State
      reads this
      requires Valid()
    {
      State(SideOf(Shot), SideOf(Report), pending, replies, issued, currentProgress, told)
    }

    /** `backupData` up to its two downloads. */
    constructor (shots: seq<Item>, reports: seq<Item>, remoteShots: Store, remoteReports: Store)
      requires UniqueKeys(shots) && UniqueKeys(reports)
      ensures Valid() && Initial(Now())
      ensures SideOf(Shot).local == shots && SideOf(Report).local == reports
    {
      local := map[Shot := shots, Report := reports];
      remote := map[Shot := remoteShots, Report := remoteReports];
      cloudData := map[];
      deleteCounter := map[Shot := 0, Report := 0];
      currentProgress := 0;
      told := [Started];
      pending, replies := {Load(Report), Load(Shot)}, {};
      removed, added := map[Shot := {}, Report := {}], map[Shot := {}, Report := {}];
      issued := [Load(Report), Load(Shot)];
    }

    /** The remote service carries out, or refuses, a request. */
    method Process(r: Request, outcome: Outcome, keys: seq<Key>)
      requires Valid() && Enabled(Now(), Settle(r, outcome, keys))
      modifies this`remote, this`pending, this`replies
      ensures Valid() && Now() == Next(old(Now()), Settle(r, outcome, keys))
    {
      TracksEach(r.c);
      if outcome != Rejected {
        match r {
          case Load(_) =>
          case Remove(c, key) => remote := remote[c := remote[c] - {key}];
          case Upload(c, item) => remote := remote[c := remote[c][item.key := item.content]];
        }
      }
      pending, replies := pending - {r}, replies + {Reply(r, outcome == Acknowledged, keys)};
    }

    /** `remoteDataService.deleteObject` for everything in the cloud. */
    method DeleteAll(c: Collection)
      requires Valid() && c in cloudData
      modifies this`pending, this`issued
      ensures Valid() && Now() == Issue(old(Now()), Removals(c, cloudData[c]))
    {
      ghost var requests := Removals(c, cloudData[c]);
      for i := 0 to |cloudData[c]|
        invariant pending == old(pending) + Members(requests[..i])
        invariant issued == old(issued) + requests[..i]
      {
        Prefix(requests, i);
        pending := pending + {Remove(c, cloudData[c][i])};
        issued := issued + [Remove(c, cloudData[c][i])];
      }
      assert requests[..|cloudData[c]|] == requests;
    }

    method UploadAll(c: Collection)
      requires Valid()
      modifies this`pending, this`issued
      ensures Valid() && Now() == Issue(old(Now()), Uploads(c, local[c]))
    {
      ghost var requests := Uploads(c, local[c]);
      for i := 0 to |local[c]|
        invariant pending == old(pending) + Members(requests[..i])
        invariant issued == old(issued) + requests[..i]
      {
        Prefix(requests, i);
        pending := pending + {Upload(c, local[c][i])};
        issued := issued + [Upload(c, local[c][i])];
      }
      assert requests[..|local[c]|] == requests;
    }

    /** `reportClosure` and `shotClosure` on success. */
    method DataLoaded(c: Collection, keys: seq<Key>)
      requires Valid()
      modifies this
      ensures Valid() && Now() == OnLoaded(old(Now()), c, keys)
    {
      cloudData := cloudData[c := keys];
      CheckLoadingDataDone();
    }

    method CheckLoadingDataDone()
      requires Valid()
      modifies this`pending, this`issued
      ensures Valid()
      ensures var s := old(Now());
              Now() ==
              if s.Loaded() then Issue(s, Removals(Shot, s.shots.cloud.value) + Removals(Report, s.reports.cloud.value))
              else s
    {
      if Report in cloudData && Shot in cloudData {
        ghost var s := Now();
        DeleteAll(Shot);
        DeleteAll(Report);
        var a, b := Removals(Shot, cloudData[Shot]), Removals(Report, cloudData[Report]);
        assert Members(a + b) == Members(a) + Members(b);
        assert issued == old(issued) + (a + b);
      }
    }

    method Advance()
      requires Valid() && Shot in cloudData && Report in cloudData
      modifies this`currentProgress, this`told
      ensures Valid() && Now() == Advanced(old(Now()))
    {
      var totalTask := |cloudData[Report]| + |cloudData[Shot]| + |local[Report]| + |local[Shot]|;
      currentProgress := currentProgress + 1;
      told := told + [Progress(currentProgress, totalTask)];
    }

    method CountDeletion(c: Collection, key: Key)
      requires Valid() && key !in removed[c]
      modifies this`deleteCounter, this`removed
      ensures Valid()
      ensures Now() == old(Now()).With(c, old(Now()).Of(c).(removed := old(Now()).Of(c).removed + {key}))
    {
      TracksEach(c);
      deleteCounter := deleteCounter[c := deleteCounter[c] + 1];
      removed := removed[c := removed[c] + {key}];
    }

    /** The handler of a deletion. */
    method ObjectDeleted(c: Collection, key: Key)
      requires Valid() && Shot in cloudData && Report in cloudData && key !in removed[c]
      modifies this
      ensures Valid() && Now() == OnRemoved(old(Now()), c, key)
    {
      hide Issue, Uploads, Advanced;
      CountDeletion(c, key);
      Advance();
      TracksEach(c);
      if deleteCounter[c] == |cloudData[c]| { UploadAll(c); }
    }

    /** The handler of an upload. */
    method ObjectUploaded(c: Collection, item: Item)
      requires Valid() && Shot in cloudData && Report in cloudData
      modifies this
      ensures Valid() && Now() == OnUploaded(old(Now()), c, item)
    {
      ghost var s := Now();
      added := added[c := added[c] + {item.key}];
      assert Now() == s.With(c, s.Of(c).(added := s.Of(c).added + {item.key}));
      Advance();
    }

    /** Delivers a reply to its handler. */
    method Complete(reply: Reply)
      requires Valid() && Invariant(Now()) && reply in replies
      modifies this
      ensures Valid() && Enabled(old(Now()), Answer(reply)) && Now() == Next(old(Now()), Answer(reply))
      ensures Invariant(Now())
    {
      hide Invariant, OnLoaded, OnRemoved, OnUploaded;
      ghost var s := Now();
      Delivered(s, reply);
      StepKeeps(s, Answer(reply));
      replies := replies - {reply};
      assert Now() == s.(replies := s.replies - {reply});
      if !reply.success {
        told := told + [Error];
      } else {
        match reply.request {
          case Load(c) => DataLoaded(c, reply.keys);
          case Remove(c, key) => ObjectDeleted(c, key);
          case Upload(c, item) => ObjectUploaded(c, item);
        }
      }
    }
  }
}
