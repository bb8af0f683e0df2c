/**
 Admission, bootstrap recording, revocation and hydration as concurrent tasks,
 split at every `await` and contending for the lifecycle lock of `node.py`.
 Every interleaving is a sequential run of whole operations in the order in
 which they release the lock, so a revocation holds from its release on.
 */
module Lifecycle {
  import opened Options
  import opened Signing
  import opened Models
  import opened Dicts
  import opened Membership
  import opened Requests
  import opened NodeState
  import opened NodeRuns

  // ---------- tasks ----------

  /** What a task is to do.  An admission turns into recording once the policy has decided, outside the lock. */
  datatype Job =
    | Admission(manifest: Manifest, url: Option<string>, accepted: bool, now: int)
    | Recording(queue: seq<Seed>, now: int)
    | Revoking(revocation: Revocation, now: int)
    | Hydrating

  /** Where a task stands; what it has read across an await is kept here. */
  datatype Stage =
    | Deciding
    | Waiting
    | Looking                              // holds the lock, about to read the table
    | LookedUp(existing: Option<Member>)   // recording, about to write the cache
    | StoringManifest                      // recording, about to write the store
    | Enrolling                            // recording, about to write the table
    | Judging(existing: Option<Member>)    // revoking, about to check the notice
    | Marking(member: Member)              // revoking, about to write the table
    | Evicting                             // revoking, about to drop the cached manifest
    | DeletingManifest                     // revoking, about to drop the stored manifest
    | Reading                              // hydrating, about to read the store
    | Filling(manifests: seq<Manifest>)    // hydrating, about to fill the cache
    | Releasing
    | Done

  /** `result` is what a revocation returns. */
  datatype Task = Task(job: Job, stage: Stage, result: Option<PeerState>)

  /**
   The node, the holder of its lock and the tasks.  `base` is the node as the
   holder found it and `log` lists the operations whose lock has been released.
   */
  datatype World = World(node: Node, holder: Option<nat>, tasks: map<nat, Task>, base: Node, log: seq<Op>)

  datatype Move = Spawn(id: nat, job: Job) | Advance(id: nat)

  predicate HoldsLock(s: Stage) {
    !s.Deciding? && !s.Waiting? && !s.Done?
  }

  function FirstStage(job: Job): Stage {
    match job
    case Admission(_, _, _, _) => Deciding
    case Recording(queue, _) => if queue == [] then Done else Waiting
    case _ => Waiting
  }

  /** The operation that one critical section of a job carries out. */
  function Section(job: Job): Op {
    match job
    case Recording(queue, now) => Bootstrap(if queue == [] then [] else [queue[0]], now)
    case Revoking(r, now) => Revoke(r, now)
    case _ => Hydrate
  }

  // ---------- steps ----------

  function AdvanceRecording(n: Node, t: Task): (Node, Task)
    requires t.job.Recording? && t.job.queue != []
  {
    var m, url, now := t.job.queue[0].manifest, t.job.queue[0].url, t.job.now;
    match t.stage
    case Looking => (n, t.(stage := LookedUp(Get(n.table, m.nodeId))))
    case LookedUp(existing) =>
      if existing.Some? && existing.value.state == Revoked then (n, t.(stage := Releasing))
      else (n.(cache := n.cache[m.nodeId := m]), t.(stage := if n.store.Some? then StoringManifest else Enrolling))
    case StoringManifest =>
      (n.(store := if n.store.Some? then Some(Put(n.store.value, m.nodeId, m)) else None), t.(stage := Enrolling))
    case Enrolling =>
      (n.(table := Put(n.table, m.nodeId, FreshRecord(m.nodeId, url, m.orgId, m.revision, now))),
          t.(stage := Releasing))
    case _ => (n, t)
  }

  function AdvanceRevoking(n: Node, t: Task): (Node, Task)
    requires t.job.Revoking?
  {
    var r, id := t.job.revocation, t.job.revocation.notice.revokedNodeId;
    match t.stage
    case Looking => (n, t.(stage := Judging(Get(n.table, id))))
    case Judging(None) => (n, t.(stage := Releasing, result := None))
    case Judging(Some(m)) =>
      if NoticeApplies(r.verify, r.notice, r.federationId, r.trusted, r.authorize) then (n, t.(stage := Marking(m)))
      else (n, t.(stage := if m.state == Revoked then Evicting else Releasing, result := Some(m.state)))
    case Marking(m) =>
      (n.(table := Put(n.table, id, WithState(m, Revoked, t.job.now))), t.(stage := Evicting, result := Some(Revoked)))
    case Evicting => (n.(cache := n.cache - {id}), t.(stage := if n.store.Some? then DeletingManifest else Releasing))
    case DeletingManifest =>
      (n.(store := if n.store.Some? then Some(Remove(n.store.value, id)) else None), t.(stage := Releasing))
    case _ => (n, t)
  }

  function AdvanceHydrating(n: Node, t: Task): (Node, Task)
    requires t.job.Hydrating? && Shaped(n)
  {
    match t.stage
    case Looking => (n, t.(stage := if n.store.Some? && n.cache == map[] then Reading else Releasing))
    case Reading => (n, t.(stage := if n.store.Some? then Filling(Values(n.store.value)) else Releasing))
    case Filling(manifests) => (n.(cache := KeyedById(manifests)), t.(stage := Releasing))
    case _ => (n, t)
  }

  /** One step inside a critical section. */
  function AdvanceJob(n: Node, t: Task): (Node, Task)
    requires Shaped(n)
  {
    match t.job
    case Recording(queue, _) => if queue == [] then (n, t) else AdvanceRecording(n, t)
    case Revoking(_, _) => AdvanceRevoking(n, t)
    case Hydrating => AdvanceHydrating(n, t)
    case Admission(_, _, _, _) => (n, t)
  }

  /** Handing the lock back; a recording with seeds left queues for it again. */
  function Released(t: Task): Task {
    if t.job.Recording? && |t.job.queue| > 1
    then t.(job := t.job.(queue := t.job.queue[1..]), stage := Waiting)
    else t.(stage := Done)
  }

  /** One step of one task; a task waiting for a held lock stays where it is. */
  function AdvanceTask(w: World, id: nat): World
    requires id in w.tasks && Shaped(w.node)
  {
    var t := w.tasks[id];
    match t.stage
    case Deciding =>
      if !t.job.Admission? then w
      else
        var resolved := ResolvedUrl(t.job.url, t.job.manifest);
        var queue := if t.job.accepted && resolved.Some? then [Seed(t.job.manifest, resolved.value)] else [];
        w.(tasks := w.tasks[id := Task(Recording(queue, t.job.now), if queue == [] then Done else Waiting, None)])
    case Waiting =>
      if w.holder.Some? then w
      else w.(holder := Some(id), base := w.node, tasks := w.tasks[id := t.(stage := Looking)])
    case Done => w
    case Releasing =>
      w.(holder := None, log := w.log + [Section(t.job)], tasks := w.tasks[id := Released(t)])
    case _ =>
      var (n, t') := AdvanceJob(w.node, t);
      w.(node := n, tasks := w.tasks[id := t'])
  }

  function Moved(w: World, move: Move): World
    requires Shaped(w.node)
  {
    match move
    case Spawn(id, job) =>
      if id in w.tasks then w else w.(tasks := w.tasks[id := Task(job, FirstStage(job), None)])
    case Advance(id) => if id in w.tasks then AdvanceTask(w, id) else w
  }

  function Fresh(n: Node): World {
    World(n, None, map[], n, [])
  }

  // ---------- partial operations ----------

  /** How far the holder has changed the node it found. */
  ghost predicate Partial(base: Node, t: Task, n: Node)
    requires Shaped(base)
  {
    match t.job
    case Recording(queue, now) => queue != [] && PartialRecording(base, t, n, queue[0], now)
    case Revoking(r, now) => PartialRevoking(base, t, n, r, now)
    case Hydrating => PartialHydrating(base, t, n)
    case Admission(_, _, _, _) => false
  }

  ghost predicate PartialRecording(base: Node, t: Task, n: Node, seed: Seed, now: int) {
    var m := seed.manifest;
    match t.stage
    case Looking => n == base
    case LookedUp(existing) => n == base && existing == Get(base.table, m.nodeId)
    case StoringManifest =>
      !IsRevoked(base, m.nodeId) && base.store.Some? && n == base.(cache := base.cache[m.nodeId := m])
    case Enrolling => !IsRevoked(base, m.nodeId) && n == Remember(base, m)
    case Releasing => n == Recorded(base, m, seed.url, now)
    case _ => false
  }

  ghost predicate PartialRevoking(base: Node, t: Task, n: Node, r: Revocation, now: int) {
    var id := r.notice.revokedNodeId;
    var (state, table) := ApplyNotice(r.verify, base.table, r.notice, r.federationId, r.trusted, r.authorize, now);
    match t.stage
    case Looking => n == base
    case Judging(existing) => n == base && existing == Get(base.table, id)
    case Marking(m) =>
      n == base && Get(base.table, id) == Some(m) &&
      NoticeApplies(r.verify, r.notice, r.federationId, r.trusted, r.authorize)
    case Evicting => state == Some(Revoked) && t.result == state && n == base.(table := table)
    case DeletingManifest =>
      state == Some(Revoked) && t.result == state && base.store.Some? &&
      n == base.(table := table, cache := base.cache - {id})
    case Releasing => (n, t.result) == NoticeApplied(base, r, now)
    case _ => false
  }

  ghost predicate PartialHydrating(base: Node, t: Task, n: Node)
    requires Shaped(base)
  {
    match t.stage
    case Looking => n == base
    case Reading => n == base && base.store.Some? && base.cache == map[]
    case Filling(manifests) =>
      n == base && base.store.Some? && base.cache == map[] && manifests == Values(base.store.value)
    case Releasing => n == Hydrated(base)
    case _ => false
  }

  /** A partial operation finished as it is released is the whole operation. */
  lemma ReleasedIsPerformed(c: Crypto, base: Node, t: Task, n: Node)
    requires Shaped(base) && Partial(base, t, n) && t.stage == Releasing
    ensures n == Perform(c, base, Section(t.job))
  {
    if t.job.Recording? {
      var seed := t.job.queue[0];
      assert [seed][..0] == [];
      assert Bootstrapped(base, [seed], t.job.now)
          == Recorded(Bootstrapped(base, [], t.job.now), seed.manifest, seed.url, t.job.now);
    }
  }

  /** Every partial change keeps the dictionaries well formed. */
  lemma PartialIsShaped(base: Node, t: Task, n: Node)
    requires Inv(base) && Partial(base, t, n)
    ensures Shaped(n)
  {
    match t.job
    case Recording(queue, now) =>
      RememberActs(base, queue[0].manifest);
      RecordedActs(base, queue[0].manifest, queue[0].url, now);
    case Revoking(r, now) =>
      NoticeAppliedActs(base, r, now);
      var table := ApplyNotice(r.verify, base.table, r.notice, r.federationId, r.trusted, r.authorize, now).1;
      if r.notice.revokedNodeId in base.table.items {
        PutWellFormed(base.table, r.notice.revokedNodeId,
                      WithState(base.table.items[r.notice.revokedNodeId], Revoked, now));
      }
    case Hydrating =>
    case Admission(_, _, _, _) =>
  }

  lemma RecordingKeepsRevoked(base: Node, t: Task, n: Node, seed: Seed, now: int, id: string)
    requires Inv(base) && PartialRecording(base, t, n, seed, now) && StaysOut(base, id)
    ensures StaysOut(n, id)
  {
    RememberActs(base, seed.manifest);
  }

  lemma RevokingKeepsRevoked(base: Node, t: Task, n: Node, r: Revocation, now: int, id: string)
    requires Inv(base) && PartialRevoking(base, t, n, r, now) && StaysOut(base, id)
    ensures StaysOut(n, id)
  {
    RevokesExactly(r.verify, base.table, r.notice, r.federationId, r.trusted, r.authorize, now);
    NoticeAppliedActs(base, r, now);
    var after := NoticeApplied(base, r, now).0;
    assert About(base, id).cached.None? && About(base, id).stored.None?;
    assert About(after, id).record.Some? && About(after, id).cached.None? && About(after, id).stored.None?;
  }

  /** A revoked peer stays revoked and shut out at every point of a partial operation. */
  lemma PartialKeepsRevoked(base: Node, t: Task, n: Node, id: string)
    requires Inv(base) && Partial(base, t, n) && IsRevoked(base, id)
    ensures StaysOut(n, id)
  {
    RevokedStaysOut(base, id);
    match t.job
    case Recording(queue, now) =>
      RecordingKeepsRevoked(base, t, n, queue[0], now, id);
    case Revoking(r, now) =>
      RevokingKeepsRevoked(base, t, n, r, now, id);
    case Hydrating =>
      HydratedCache(base);
  }

  // ---------- the invariant of the world ----------

  /** A free lock leaves the node at the end of the log; a held one, partway into the holder's operation. */
  ghost predicate Coherent(c: Crypto, first: Node, w: World)
    requires Inv(first)
  {
    match w.holder
    case None => w.node == Run(c, first, w.log)
    case Some(id) => id in w.tasks && w.base == Run(c, first, w.log) && Partial(w.base, w.tasks[id], w.node)
  }

  /** Exactly the holder is inside a critical section, and what waits can enter one. */
  ghost predicate OneHolder(holder: Option<nat>, tasks: map<nat, Task>) {
    forall t :: t in tasks ==>
      (HoldsLock(tasks[t].stage) <==> holder == Some(t)) && (tasks[t].stage.Waiting? ==> Ready(tasks[t].job))
  }

  /** Every revocation that returned REVOKED stands in this node. */
  ghost predicate Upheld(n: Node, tasks: map<nat, Task>) {
    forall t :: t in tasks && Applied(tasks[t]) ==> IsRevoked(n, tasks[t].job.revocation.notice.revokedNodeId)
  }

  ghost predicate WorldInv(c: Crypto, first: Node, w: World)
    requires Inv(first)
  {
    Coherent(c, first, w) && OneHolder(w.holder, w.tasks) && Upheld(Run(c, first, w.log), w.tasks)
  }

  predicate Ready(job: Job) {
    !job.Admission? && (job.Recording? ==> job.queue != [])
  }

  /** A revocation that has released the lock having returned REVOKED. */
  predicate Applied(t: Task) {
    t.job.Revoking? && t.stage.Done? && t.result == Some(Revoked)
  }

  lemma WorldIsShaped(c: Crypto, first: Node, w: World)
    requires Inv(first) && WorldInv(c, first, w)
    ensures Shaped(w.node)
  {
    if w.holder.Some? {
      PartialIsShaped(w.base, w.tasks[w.holder.value], w.node);
    }
  }

  lemma RunSnoc(c: Crypto, first: Node, log: seq<Op>, op: Op)
    requires Inv(first)
    ensures Run(c, first, log + [op]) == Perform(c, Run(c, first, log), op)
  {
    assert (log + [op])[..|log|] == log;
  }

  lemma RecordingStep(base: Node, t: Task, n: Node)
    requires t.job.Recording? && t.job.queue != [] && t.stage != Releasing
    requires PartialRecording(base, t, n, t.job.queue[0], t.job.now)
    ensures var (n', t') := AdvanceRecording(n, t);
      PartialRecording(base, t', n', t.job.queue[0], t.job.now) && HoldsLock(t'.stage) && t'.job == t.job
  {
  }

  lemma RevokingStep(base: Node, t: Task, n: Node)
    requires t.job.Revoking? && t.stage != Releasing && PartialRevoking(base, t, n, t.job.revocation, t.job.now)
    ensures var (n', t') := AdvanceRevoking(n, t);
      PartialRevoking(base, t', n', t.job.revocation, t.job.now) && HoldsLock(t'.stage) && t'.job == t.job
  {
    var r := t.job.revocation;
    RevokesExactly(r.verify, base.table, r.notice, r.federationId, r.trusted, r.authorize, t.job.now);
  }

  lemma HydratingStep(base: Node, t: Task, n: Node)
    requires Shaped(base) && Shaped(n) && t.job.Hydrating? && t.stage != Releasing && PartialHydrating(base, t, n)
    ensures var (n', t') := AdvanceHydrating(n, t);
      PartialHydrating(base, t', n') && HoldsLock(t'.stage) && t'.job == t.job
  {
  }

  /** The holder's step inside its critical section carries its partial operation on. */
  lemma HolderStep(base: Node, t: Task, n: Node)
    requires Inv(base) && Shaped(n) && Partial(base, t, n) && t.stage != Releasing
    ensures var (n', t') := AdvanceJob(n, t); Partial(base, t', n') && HoldsLock(t'.stage) && t'.job == t.job
  {
    match t.job
    case Recording(_, _) => RecordingStep(base, t, n);
    case Revoking(_, _) => RevokingStep(base, t, n);
    case Hydrating => HydratingStep(base, t, n);
  }

  /** What a finished revocation returned REVOKED for is revoked. */
  lemma RevokedResult(n: Node, r: Revocation, now: int)
    requires Inv(n) && NoticeApplied(n, r, now).1 == Some(Revoked)
    ensures IsRevoked(NoticeApplied(n, r, now).0, r.notice.revokedNodeId)
  {
    NoticeAppliedActs(n, r, now);
    var id := r.notice.revokedNodeId;
    assert About(NoticeApplied(n, r, now).0, id).record.Some?;
  }

  lemma ReleaseKeepsUpheld(c: Crypto, base: Node, tasks: map<nat, Task>, id: nat, n: Node)
    requires Inv(base) && Upheld(base, tasks)
    requires id in tasks && tasks[id].stage == Releasing && Partial(base, tasks[id], n)
    ensures Upheld(Perform(c, base, Section(tasks[id].job)), tasks[id := Released(tasks[id])])
  {
    var t := tasks[id];
    var after := Perform(c, base, Section(t.job));
    if Applied(Released(t)) {
      RevokedResult(base, t.job.revocation, t.job.now);
    }
    forall k | k in tasks && k != id && Applied(tasks[k])
      ensures IsRevoked(after, tasks[k].job.revocation.notice.revokedNodeId)
    {
      PerformKeepsRevoked(c, base, Section(t.job), tasks[k].job.revocation.notice.revokedNodeId);
    }
  }

  lemma ReleaseFreesLock(tasks: map<nat, Task>, id: nat)
    requires OneHolder(Some(id), tasks) && id in tasks && tasks[id].stage == Releasing
    ensures OneHolder(None, tasks[id := Released(tasks[id])])
  {
  }

  /** The node at a release is the log with the released operation, and upholds what has returned. */
  lemma ReleaseEnds(c: Crypto, first: Node, w: World, id: nat)
    requires Inv(first) && WorldInv(c, first, w)
    requires w.holder == Some(id) && w.tasks[id].stage == Releasing
    ensures Run(c, first, w.log + [Section(w.tasks[id].job)]) == w.node
    ensures Upheld(w.node, w.tasks[id := Released(w.tasks[id])])
  {
    var t, base := w.tasks[id], Run(c, first, w.log);
    ReleaseKeepsUpheld(c, base, w.tasks, id, w.node);
    ReleasedIsPerformed(c, base, t, w.node);
    RunSnoc(c, first, w.log, Section(t.job));
  }

  lemma FreeWorld(c: Crypto, first: Node, w: World)
    requires Inv(first) && w.holder.None?
    requires Run(c, first, w.log) == w.node && OneHolder(None, w.tasks) && Upheld(w.node, w.tasks)
    ensures WorldInv(c, first, w)
  {
  }

  lemma ReleaseKeepsInv(c: Crypto, first: Node, w: World, id: nat)
    requires Inv(first) && WorldInv(c, first, w) && Shaped(w.node)
    requires id in w.tasks && w.tasks[id].stage == Releasing
    ensures WorldInv(c, first, AdvanceTask(w, id))
  {
    assert HoldsLock(w.tasks[id].stage) && w.holder == Some(id);
    ReleaseEnds(c, first, w, id);
    ReleaseFreesLock(w.tasks, id);
    FreeWorld(c, first, AdvanceTask(w, id));
  }

  lemma SectionStepKeepsInv(c: Crypto, first: Node, w: World, id: nat)
    requires Inv(first) && WorldInv(c, first, w) && Shaped(w.node)
    requires id in w.tasks && HoldsLock(w.tasks[id].stage) && w.tasks[id].stage != Releasing
    ensures WorldInv(c, first, AdvanceTask(w, id))
  {
    HolderStep(w.base, w.tasks[id], w.node);
    var (n, t') := AdvanceJob(w.node, w.tasks[id]);
    assert AdvanceTask(w, id) == w.(node := n, tasks := w.tasks[id := t']);
    assert OneHolder(w.holder, w.tasks[id := t']);
    assert Upheld(Run(c, first, w.log), w.tasks[id := t']);
  }

  /** A task may be replaced by one that holds no lock, finishes no revocation and can wait. */
  lemma OutsiderReplaced(c: Crypto, first: Node, w: World, id: nat, t: Task)
    requires Inv(first) && WorldInv(c, first, w)
    requires w.holder != Some(id) && !HoldsLock(t.stage) && !Applied(t) && (t.stage.Waiting? ==> Ready(t.job))
    ensures WorldInv(c, first, w.(tasks := w.tasks[id := t]))
  {
    assert OneHolder(w.holder, w.tasks[id := t]);
    assert Upheld(Run(c, first, w.log), w.tasks[id := t]);
  }

  lemma AcquireKeepsInv(c: Crypto, first: Node, w: World, id: nat)
    requires Inv(first) && WorldInv(c, first, w) && w.holder.None?
    requires id in w.tasks && w.tasks[id].stage.Waiting?
    ensures WorldInv(c, first, w.(holder := Some(id), base := w.node,
        tasks := w.tasks[id := w.tasks[id].(stage := Looking)]))
  {
    var tasks := w.tasks[id := w.tasks[id].(stage := Looking)];
    assert OneHolder(Some(id), tasks);
    assert Upheld(Run(c, first, w.log), tasks);
    assert Partial(w.node, tasks[id], w.node);
  }

  lemma OutsideStepKeepsInv(c: Crypto, first: Node, w: World, id: nat)
    requires Inv(first) && WorldInv(c, first, w) && Shaped(w.node)
    requires id in w.tasks && !HoldsLock(w.tasks[id].stage)
    ensures WorldInv(c, first, AdvanceTask(w, id))
  {
    match w.tasks[id].stage
    case Deciding =>
      if w.tasks[id].job.Admission? {
        OutsiderReplaced(c, first, w, id, AdvanceTask(w, id).tasks[id]);
      }
    case Waiting =>
      if w.holder.None? {
        AcquireKeepsInv(c, first, w, id);
      }
    case Done =>
  }

  lemma MoveKeepsInv(c: Crypto, first: Node, w: World, move: Move)
    requires Inv(first) && WorldInv(c, first, w) && Shaped(w.node)
    ensures WorldInv(c, first, Moved(w, move)) && Shaped(Moved(w, move).node)
  {
    match move
    case Spawn(id, job) =>
      if id !in w.tasks {
        assert w.holder != Some(id);
        OutsiderReplaced(c, first, w, id, Task(job, FirstStage(job), None));
      }
    case Advance(id) =>
      if id in w.tasks {
        if w.tasks[id].stage == Releasing {
          ReleaseKeepsInv(c, first, w, id);
        } else if HoldsLock(w.tasks[id].stage) {
          SectionStepKeepsInv(c, first, w, id);
        } else {
          OutsideStepKeepsInv(c, first, w, id);
        }
      }
    WorldIsShaped(c, first, Moved(w, move));
  }

  /** An interleaving: tasks arriving and advancing in any order. */
  function Play(c: Crypto, first: Node, moves: seq<Move>): (w: World)
    requires Inv(first)
    ensures WorldInv(c, first, w) && Shaped(w.node)
  {
    if moves == [] then Fresh(first)
    else
      var before := Play(c, first, moves[..|moves| - 1]);
      MoveKeepsInv(c, first, before, moves[|moves| - 1]);
      Moved(before, moves[|moves| - 1])
  }

  // ---------- what every interleaving guarantees ----------

  /**
   Every interleaving is a sequential run: whenever the lock is free the node is
   what the released operations make of the first node one after the other, and
   while it is held the holder found it that way.
   */
  lemma InterleavingIsSequential(c: Crypto, first: Node, moves: seq<Move>)
    requires Inv(first)
    ensures var w := Play(c, first, moves);
      && (w.holder.None? ==> w.node == Run(c, first, w.log) && Inv(w.node))
      && (w.holder.Some? ==> w.base == Run(c, first, w.log) && Partial(w.base, w.tasks[w.holder.value], w.node))
  {
    var w := Play(c, first, moves);
  }

  /** A revoked peer: no manifest in cache or store, and every request of it refused without a claim. */
  ghost predicate Excluded(c: Crypto, n: Node, peer: string) {
    && IsRevoked(n, peer)
    && peer !in n.cache && (n.store.Some? ==> peer !in n.store.value.items)
    && forall nonces, header, http, t, u ::
         KnownInbound(c, n, peer, nonces, header, http, t, u) == (Unauthorized("unknown_peer"), nonces)
  }

  lemma AppliedIsExcluded(c: Crypto, first: Node, w: World, id: nat)
    requires Inv(first) && WorldInv(c, first, w) && id in w.tasks && Applied(w.tasks[id])
    ensures Excluded(c, w.node, w.tasks[id].job.revocation.notice.revokedNodeId)
  {
    var peer := w.tasks[id].job.revocation.notice.revokedNodeId;
    if w.holder.Some? {
      PartialKeepsRevoked(w.base, w.tasks[w.holder.value], w.node, peer);
    } else {
      RevokedStaysOut(w.node, peer);
    }
  }

  lemma DoneDoesNotMove(w: World, move: Move, id: nat)
    requires Shaped(w.node) && id in w.tasks && w.tasks[id].stage.Done?
    ensures id in Moved(w, move).tasks && Moved(w, move).tasks[id] == w.tasks[id]
  {
  }

  /** Whether a task of an interleaving has ended, and how. */
  ghost predicate EndedAs(c: Crypto, first: Node, moves: seq<Move>, id: nat, t: Task)
    requires Inv(first)
  {
    var w := Play(c, first, moves);
    id in w.tasks && w.tasks[id] == t && t.stage.Done?
  }

  lemma DoneStaysOnce(c: Crypto, first: Node, moves: seq<Move>, move: Move, id: nat, t: Task)
    requires Inv(first) && EndedAs(c, first, moves, id, t)
    ensures EndedAs(c, first, moves + [move], id, t)
  {
    PlaySnoc(c, first, moves, move);
    DoneDoesNotMove(Play(c, first, moves), move, id);
  }

  /** A finished task never moves again, so what its end established holds from then on. */
  lemma {:induction false} DoneStays(c: Crypto, first: Node, moves: seq<Move>, more: seq<Move>, id: nat, t: Task)
    requires Inv(first) && EndedAs(c, first, moves, id, t)
    ensures EndedAs(c, first, moves + more, id, t)
    decreases more
  {
    if more == [] {
      assert moves + more == moves;
    } else {
      DoneStaysOnce(c, first, moves, more[0], id, t);
      DoneStays(c, first, moves + [more[0]], more[1..], id, t);
      MovesShift(moves, more);
    }
  }

  lemma MovesShift(moves: seq<Move>, more: seq<Move>)
    requires more != []
    ensures moves + [more[0]] + more[1..] == moves + more
  {
  }

  /**
   Once a revocation has released the lock having returned REVOKED, its peer is
   excluded in every world that any further interleaving reaches, even inside
   another task's critical section.
   */
  lemma RevocationSticks(c: Crypto, first: Node, moves: seq<Move>, more: seq<Move>, id: nat, t: Task)
    requires Inv(first) && EndedAs(c, first, moves, id, t) && Applied(t)
    ensures Excluded(c, Play(c, first, moves + more).node, t.job.revocation.notice.revokedNodeId)
  {
    DoneStays(c, first, moves, more, id, t);
    AppliedIsExcluded(c, first, Play(c, first, moves + more), id);
  }

  lemma PlaySnoc(c: Crypto, first: Node, moves: seq<Move>, move: Move)
    requires Inv(first)
    ensures Play(c, first, moves + [move]) == Moved(Play(c, first, moves), move)
  {
    assert (moves + [move])[..|moves|] == moves;
  }

  // ---------- every task does its job ----------

  /** The operations that a job comes to, in their order: one per seed, and one for an admission that has a URL. */
  ghost function Owes(job: Job): seq<Op> {
    match job
    case Admission(m, url, accepted, now) =>
      if accepted && url.Some? && url.value != "" then [Bootstrap([Seed(m, url.value)], now)]
      else if accepted && m.manifestUrl.Some? then [Bootstrap([Seed(m, m.manifestUrl.value)], now)]
      else []
    case Recording(queue, now) => seq(|queue|, i requires 0 <= i < |queue| => Bootstrap([queue[i]], now))
    case Revoking(r, now) => [Revoke(r, now)]
    case Hydrating => [Hydrate]
  }

  /** What a task has still to do. */
  ghost function Left(t: Task): seq<Op> {
    if t.stage.Done? then [] else Owes(t.job)
  }

  /** What a step added to the log. */
  function Gained(before: World, after: World): seq<Op> {
    if |before.log| <= |after.log| then after.log[|before.log|..] else []
  }

  lemma FirstOwed(queue: seq<Seed>, now: int)
    requires queue != []
    ensures Owes(Recording(queue, now)) == [Bootstrap([queue[0]], now)] + Owes(Recording(queue[1..], now))
  {
  }

  lemma ReleaseAccounts(c: Crypto, first: Node, w: World, id: nat)
    requires Inv(first) && WorldInv(c, first, w) && Shaped(w.node)
    requires id in w.tasks && w.tasks[id].stage.Releasing?
    ensures var after := AdvanceTask(w, id);
      w.log <= after.log && Gained(w, after) + Left(after.tasks[id]) == Left(w.tasks[id])
  {
    var t := w.tasks[id];
    assert HoldsLock(t.stage) && w.holder == Some(id) && Partial(w.base, t, w.node);
    assert Gained(w, AdvanceTask(w, id)) == [Section(t.job)];
    if t.job.Recording? {
      FirstOwed(t.job.queue, t.job.now);
    }
  }

  lemma SectionAccounts(c: Crypto, first: Node, w: World, id: nat)
    requires Inv(first) && WorldInv(c, first, w) && Shaped(w.node)
    requires id in w.tasks && HoldsLock(w.tasks[id].stage) && !w.tasks[id].stage.Releasing?
    ensures var after := AdvanceTask(w, id);
      after.log == w.log && Left(after.tasks[id]) == Left(w.tasks[id])
  {
    HolderStep(w.base, w.tasks[id], w.node);
  }

  lemma OutsideAccounts(w: World, id: nat)
    requires Shaped(w.node) && id in w.tasks && !HoldsLock(w.tasks[id].stage)
    ensures var after := AdvanceTask(w, id);
      after.log == w.log && Left(after.tasks[id]) == Left(w.tasks[id])
  {
    var t := w.tasks[id];
    if t.stage.Deciding? && t.job.Admission? {
      var resolved := ResolvedUrl(t.job.url, t.job.manifest);
      if t.job.accepted && resolved.Some? {
        FirstOwed([Seed(t.job.manifest, resolved.value)], t.job.now);
      }
    }
  }

  /** The step of a task moves operations from what it owes to the log, and nothing else changes either. */
  lemma MoveAccounts(c: Crypto, first: Node, w: World, move: Move, id: nat)
    requires Inv(first) && WorldInv(c, first, w) && Shaped(w.node) && id in w.tasks
    ensures var after := Moved(w, move);
      && w.log <= after.log && id in after.tasks
      && (move == Advance(id) ==> Gained(w, after) + Left(after.tasks[id]) == Left(w.tasks[id]))
      && (move != Advance(id) ==> after.tasks[id] == w.tasks[id])
      && (move.Spawn? ==> after.log == w.log)
  {
    if move.Advance? && move.id in w.tasks {
      if w.tasks[move.id].stage.Releasing? {
        ReleaseAccounts(c, first, w, move.id);
      } else if HoldsLock(w.tasks[move.id].stage) {
        SectionAccounts(c, first, w, move.id);
      } else {
        OutsideAccounts(w, move.id);
      }
    }
  }

  /** What one task adds to the log in the course of further moves. */
  ghost function ReleasedIn(c: Crypto, first: Node, moves: seq<Move>, more: seq<Move>, id: nat): seq<Op>
    requires Inv(first)
  {
    if more == [] then []
    else
      var n := |more| - 1;
      var before := Play(c, first, moves + more[..n]);
      ReleasedIn(c, first, moves, more[..n], id) +
      if more[n] == Advance(id) then Gained(before, Moved(before, more[n])) else []
  }

  lemma ReleasedSnoc(c: Crypto, first: Node, moves: seq<Move>, more: seq<Move>, move: Move, id: nat)
    requires Inv(first)
    ensures var before := Play(c, first, moves + more);
      ReleasedIn(c, first, moves, more + [move], id) ==
        ReleasedIn(c, first, moves, more, id) + if move == Advance(id) then Gained(before, Moved(before, move)) else []
  {
    assert (more + [move])[..|more|] == more;
  }

  /** What a task released and has still to do are together what it owes. */
  ghost predicate Accounted(c: Crypto, first: Node, moves: seq<Move>, more: seq<Move>, id: nat, owed: seq<Op>)
    requires Inv(first)
  {
    var w := Play(c, first, moves + more);
    id in w.tasks && ReleasedIn(c, first, moves, more, id) + Left(w.tasks[id]) == owed
  }

  lemma AccountedSnoc(c: Crypto, first: Node, moves: seq<Move>, more: seq<Move>, move: Move, id: nat, owed: seq<Op>)
    requires Inv(first) && Accounted(c, first, moves, more, id, owed)
    ensures Accounted(c, first, moves, more + [move], id, owed)
  {
    var w := Play(c, first, moves + more);
    PlaySnoc(c, first, moves + more, move);
    assert moves + (more + [move]) == moves + more + [move];
    MoveAccounts(c, first, w, move, id);
    ReleasedSnoc(c, first, moves, more, move, id);
    Regroup(ReleasedIn(c, first, moves, more, id), Gained(w, Moved(w, move)), Left(Moved(w, move).tasks[id]));
  }

  lemma Regroup(a: seq<Op>, b: seq<Op>, d: seq<Op>)
    ensures a + b + d == a + (b + d) && a + [] + d == a + d
  {
  }

  /** What holds at the start and survives one more move holds after any moves. */
  lemma {:induction false} MoveByMove(holds: seq<Move> -> bool, more: seq<Move>)
    requires holds([]) && forall done, move :: holds(done) ==> holds(done + [move])
    ensures holds(more)
  {
    if more != [] {
      var done, move := more[..|more| - 1], more[|more| - 1];
      MoveByMove(holds, done);
      assert done + [move] == more;
    }
  }

  lemma TaskAccounts(c: Crypto, first: Node, moves: seq<Move>, more: seq<Move>, id: nat, owed: seq<Op>)
    requires Inv(first) && Accounted(c, first, moves, [], id, owed)
    ensures Accounted(c, first, moves, more, id, owed)
  {
    var holds := (done: seq<Move>) => Accounted(c, first, moves, done, id, owed);
    forall done, move | holds(done) ensures holds(done + [move]) {
      AccountedSnoc(c, first, moves, done, move, id, owed);
    }
    MoveByMove(holds, more);
  }

  lemma NothingReleasedYet(c: Crypto, first: Node, moves: seq<Move>, id: nat)
    requires Inv(first) && id in Play(c, first, moves).tasks
    ensures Accounted(c, first, moves, [], id, Left(Play(c, first, moves).tasks[id]))
  {
    assert moves + [] == moves;
    Regroup([], [], Left(Play(c, first, moves).tasks[id]));
  }

  /**
   In every interleaving, what a task has released since it was spawned and what
   it has still to do are together exactly the operations of its job, in order;
   once it is done it has released them all, and nothing twice.
   */
  lemma TaskDoesItsJob(c: Crypto, first: Node, moves: seq<Move>, more: seq<Move>, id: nat, job: Job)
    requires Inv(first) && id !in Play(c, first, moves).tasks
    ensures var w := Play(c, first, moves + [Spawn(id, job)] + more);
      var released := ReleasedIn(c, first, moves + [Spawn(id, job)], more, id);
      && id in w.tasks && released + Left(w.tasks[id]) == Owes(job)
      && (w.tasks[id].stage.Done? ==> released == Owes(job))
  {
    PlaySnoc(c, first, moves, Spawn(id, job));
    NothingReleasedYet(c, first, moves + [Spawn(id, job)], id);
    TaskAccounts(c, first, moves + [Spawn(id, job)], more, id, Owes(job));
  }

  /** Steps a holder still has to take before the lock is free. */
  function StepsLeft(s: Stage): nat {
    match s
    case Looking => 6
    case LookedUp(_) => 5
    case Judging(_) => 5
    case Reading => 5
    case Marking(_) => 4
    case StoringManifest => 3
    case Evicting => 3
    case Filling(_) => 3
    case Enrolling => 2
    case DeletingManifest => 2
    case Releasing => 1
    case _ => 0
  }

  lemma RecordingShrinks(base: Node, t: Task, n: Node)
    requires t.job.Recording? && t.job.queue != [] && t.stage != Releasing
    requires PartialRecording(base, t, n, t.job.queue[0], t.job.now)
    ensures 0 < StepsLeft(AdvanceRecording(n, t).1.stage) < StepsLeft(t.stage)
  {
  }

  lemma RevokingShrinks(base: Node, t: Task, n: Node)
    requires t.job.Revoking? && t.stage != Releasing && PartialRevoking(base, t, n, t.job.revocation, t.job.now)
    ensures 0 < StepsLeft(AdvanceRevoking(n, t).1.stage) < StepsLeft(t.stage)
  {
  }

  lemma HydratingShrinks(base: Node, t: Task, n: Node)
    requires Shaped(base) && Shaped(n) && t.job.Hydrating? && t.stage != Releasing && PartialHydrating(base, t, n)
    ensures 0 < StepsLeft(AdvanceHydrating(n, t).1.stage) < StepsLeft(t.stage)
  {
  }

  /** The holder is never stuck: each of its steps brings the release nearer, and the last one frees the lock. */
  lemma HolderProgresses(c: Crypto, first: Node, w: World)
    requires Inv(first) && WorldInv(c, first, w) && Shaped(w.node) && w.holder.Some?
    ensures var id := w.holder.value;
      var after := AdvanceTask(w, id);
      id in after.tasks &&
      if w.tasks[id].stage == Releasing then after.holder.None?
      else after.holder == w.holder && 0 < StepsLeft(after.tasks[id].stage) < StepsLeft(w.tasks[id].stage)
  {
    var t := w.tasks[w.holder.value];
    assert HoldsLock(t.stage) && Partial(w.base, t, w.node);
    if t.stage != Releasing {
      match t.job
      case Recording(_, _) => RecordingShrinks(w.base, t, w.node);
      case Revoking(_, _) => RevokingShrinks(w.base, t, w.node);
      case Hydrating => HydratingShrinks(w.base, t, w.node);
    }
  }

  /** One task advancing a number of times. */
  function Pushes(id: nat, k: nat): seq<Move> {
    seq(k, _ => Advance(id))
  }

  lemma PushFirst(moves: seq<Move>, id: nat, k: nat)
    ensures moves + [Advance(id)] + Pushes(id, k) == moves + Pushes(id, k + 1)
  {
  }

  /** Steps until a task releases the lock, none when it does not hold it. */
  function Remaining(w: World, id: nat): nat {
    if w.holder == Some(id) && id in w.tasks then StepsLeft(w.tasks[id].stage) else 0
  }

  lemma PushOnce(c: Crypto, first: Node, moves: seq<Move>, id: nat)
    requires Inv(first) && Remaining(Play(c, first, moves), id) > 0
    ensures var after := Play(c, first, moves + [Advance(id)]);
      Remaining(after, id) < Remaining(Play(c, first, moves), id) && (Remaining(after, id) == 0 ==> after.holder.None?)
  {
    PlaySnoc(c, first, moves, Advance(id));
    HolderProgresses(c, first, Play(c, first, moves));
  }

  ghost predicate FreedBy(c: Crypto, first: Node, moves: seq<Move>, id: nat, k: nat)
    requires Inv(first)
  {
    Play(c, first, moves + Pushes(id, k)).holder.None?
  }

  lemma FreedAtOnce(c: Crypto, first: Node, moves: seq<Move>, id: nat)
    requires Inv(first) && Play(c, first, moves + [Advance(id)]).holder.None?
    ensures FreedBy(c, first, moves, id, 1)
  {
    assert Pushes(id, 1) == [Advance(id)];
  }

  lemma FreedOneLater(c: Crypto, first: Node, moves: seq<Move>, id: nat, k: nat)
    requires Inv(first) && FreedBy(c, first, moves + [Advance(id)], id, k)
    ensures FreedBy(c, first, moves, id, k + 1)
  {
    PushFirst(moves, id, k);
  }

  lemma {:induction false} PushedFree(c: Crypto, first: Node, moves: seq<Move>, id: nat, bound: nat) returns (k: nat)
    requires Inv(first) && 0 < Remaining(Play(c, first, moves), id) <= bound
    ensures 1 <= k <= bound && FreedBy(c, first, moves, id, k)
    decreases bound
  {
    PushOnce(c, first, moves, id);
    if Remaining(Play(c, first, moves + [Advance(id)]), id) == 0 {
      FreedAtOnce(c, first, moves, id);
      k := 1;
    } else {
      var rest := PushedFree(c, first, moves + [Advance(id)], id, bound - 1);
      FreedOneLater(c, first, moves, id, rest);
      k := rest + 1;
    }
  }

  /** In every world that an interleaving reaches, advancing the holder at most six times frees the lock. */
  lemma HolderReleases(c: Crypto, first: Node, moves: seq<Move>, id: nat)
    requires Inv(first) && Play(c, first, moves).holder == Some(id)
    ensures exists k :: 1 <= k <= 6 && FreedBy(c, first, moves, id, k)
  {
    var w := Play(c, first, moves);
    assert id in w.tasks && HoldsLock(w.tasks[id].stage);
    HolderHasSteps(w.tasks[id].stage);
    var k := PushedFree(c, first, moves, id, 6);
  }

  lemma HolderHasSteps(s: Stage)
    ensures HoldsLock(s) ==> 1 <= StepsLeft(s) <= 6
  {
  }
}
