/** GCMParams under any interleaving of builds, cleanups, Free and IV. The
  locked bodies are the functions the methods of Gcm.GCMParams are proved
  against; reading the pointer after build's unlock is a step of its own. */
module GcmRuns {
  import opened Common
  import opened CHeap
  import opened Gcm

  /** A build between its unlock and its cleanup. */
  datatype Pc = Entered | Holding(ptr: Ptr)

  datatype State = State(
    fields: Fields,
    live: set<Ptr>,            // the blocks of the object that are allocated
    releases: multiset<Ptr>,   // how often each block was given back
    builds: map<nat, Pc>,      // outstanding builds
    requested: bool)           // Free was called

  /** What a thread may do. Each outstanding build has an identity of its own
      and its cleanup runs once. */
  datatype Action = Build(id: nat) | ReadPointer(id: nat) | Cleanup(id: nat) | Free | ReadIV

  function Release(s: State, e: Effect): State {
    s.(fields := e.fields, live := s.live - e.released, releases := s.releases + multiset(e.released))
  }

  /** The effect of an action, None when it is not possible. A build after the
      release panics and changes nothing. */
  function Apply(s: State, a: Action): Option<State> {
    match a
    case Build(id) =>
      if id in s.builds then None
      else if s.fields.gp == NULL then Some(s)
      else Some(s.(fields := Enter(s.fields), builds := s.builds[id := Entered]))
    case ReadPointer(id) =>
      if id in s.builds && s.builds[id].Entered? then Some(s.(builds := s.builds[id := Holding(s.fields.gp)])) else None
    case Cleanup(id) =>
      if id in s.builds && s.builds[id].Holding? then Some(Release(s, Leave(s.fields)).(builds := s.builds - {id})) else None
    case Free => Some(Release(s, Request(s.fields)).(requested := true))
    case ReadIV => Some(s)
  }

  /** A new object with the blocks of `o`. */
  predicate Initial(s: State, o: Fields) {
    && o.gp != NULL && o.inUse == 0 && !o.freePending
    && o.gp != o.iv.p && o.gp != o.aad.p && (o.iv.p != NULL ==> o.iv.p != o.aad.p)
    && s == State(o, Blocks(o), multiset{}, map[], false)
  }

  function Exec(s: State, run: seq<Action>): Option<State> {
    if run == [] then Some(s)
    else
      match Exec(s, run[..|run| - 1])
      case None => None
      case Some(m) => Apply(m, run[|run| - 1])
  }

  /** A release was requested and no build is outstanding. */
  predicate Due(s: State) {
    s.requested && s.builds == map[]
  }

  predicate Inv(s: State, o: Fields) {
    && o.gp != NULL && s.fields.inUse == |s.builds|
    && (if Due(s) then
          && s.fields == Released(s.fields)
          && s.live == {} && s.releases == multiset(Blocks(o))
        else
          && s.fields == o.(inUse := |s.builds|, freePending := s.requested)
          && s.live == Blocks(o) && s.releases == multiset{}
          && forall id | id in s.builds :: s.builds[id].Holding? ==> s.builds[id].ptr == o.gp)
  }

  /** The count reaches zero with the last build. */
  lemma CleanupKeeps(s: State, o: Fields, id: nat)
    requires Inv(s, o) && Apply(s, Cleanup(id)).Some?
    ensures Inv(Apply(s, Cleanup(id)).value, o)
  {
    var builds := s.builds - {id};
    assert builds.Keys == s.builds.Keys - {id};
    assert |builds.Keys| == |s.builds.Keys| - 1;
    assert |builds| == 0 <==> builds == map[];
    assert s.builds != map[] by {
      assert id in s.builds;
    }
  }

  lemma MoreBuilds(builds: map<nat, Pc>, id: nat)
    requires id !in builds
    ensures |builds[id := Entered]| == |builds| + 1 && builds[id := Entered] != map[]
  {
    assert builds[id := Entered].Keys == builds.Keys + {id};
    assert id in builds[id := Entered];
  }

  lemma BuildKeeps(s: State, o: Fields, id: nat)
    requires Inv(s, o) && Apply(s, Build(id)).Some?
    ensures Inv(Apply(s, Build(id)).value, o)
  {
    if s.fields.gp != NULL {
      MoreBuilds(s.builds, id);
    }
  }

  lemma ReadKeeps(s: State, o: Fields, id: nat)
    requires Inv(s, o) && Apply(s, ReadPointer(id)).Some?
    ensures Inv(Apply(s, ReadPointer(id)).value, o)
  {
    var builds := s.builds[id := Holding(s.fields.gp)];
    assert id in s.builds && builds.Keys == s.builds.Keys && id in builds;
    assert |builds| == |builds.Keys|;
  }

  lemma InvStep(s: State, o: Fields, a: Action)
    requires Inv(s, o) && Apply(s, a).Some?
    ensures Inv(Apply(s, a).value, o)
  {
    match a
    case Build(id) => BuildKeeps(s, o, id);
    case ReadPointer(id) => ReadKeeps(s, o, id);
    case Cleanup(id) => CleanupKeeps(s, o, id);
    case Free => assert |s.builds| == 0 <==> s.builds == map[];
    case ReadIV =>
  }

  lemma {:induction false} Reachable(s: State, o: Fields, run: seq<Action>)
    requires Initial(s, o) && Exec(s, run).Some?
    ensures Inv(Exec(s, run).value, o)
  {
    if run != [] {
      Reachable(s, o, run[..|run| - 1]);
      InvStep(Exec(s, run[..|run| - 1]).value, o, run[|run| - 1]);
    }
  }

  /** Over every interleaving: block, IV and AAD are given back exactly when a
      release was requested and no build is outstanding, each of them once, and
      until then they are live. */
  lemma {:induction false} ReleasedExactlyWhenDue(s: State, o: Fields, run: seq<Action>, p: Ptr)
    requires Initial(s, o) && Exec(s, run).Some? && p in Blocks(o)
    ensures var t := Exec(s, run).value;
            && (t.fields.gp == NULL <==> Due(t))
            && t.releases[p] == (if Due(t) then 1 else 0)
            && (p in t.live <==> !Due(t))
  {
    Reachable(s, o, run);
  }

  /** The pointer a build returned is the live block of the object until that
      build's own cleanup, although it was read without the lock; so are the
      buffers the token reads and writes through it. */
  lemma {:induction false} PointerStaysValid(s: State, o: Fields, run: seq<Action>, id: nat)
    requires Initial(s, o) && Exec(s, run).Some? && id in Exec(s, run).value.builds
    ensures var t := Exec(s, run).value;
            && Blocks(o) <= t.live
            && (t.builds[id].Holding? ==> t.builds[id].ptr == o.gp)
            && Apply(t, if t.builds[id].Entered? then ReadPointer(id) else Cleanup(id)).Some?
  {
    Reachable(s, o, run);
  }

  /** Once Free was called, the cleanup of the last outstanding build releases
      in that very step, and no step releases anything twice. */
  lemma {:induction false} LastCleanupReleases(s: State, o: Fields, run: seq<Action>, a: Action)
    requires Initial(s, o) && Exec(s, run).Some? && Apply(Exec(s, run).value, a).Some?
    ensures var t, t' := Exec(s, run).value, Apply(Exec(s, run).value, a).value;
            && (t.requested && a.Cleanup? && t.builds.Keys == {a.id} ==> !Due(t) && t.live == Blocks(o) && t'.live == {})
            && (a.Free? && t.builds == map[] ==> t'.live == {})
            && (t'.live != t.live ==> t.live == Blocks(o) && t'.live == {} && Due(t'))
            && (Due(t) ==> t'.fields == t.fields && t'.releases == t.releases)
  {
    Reachable(s, o, run);
    var t := Exec(s, run).value;
    InvStep(t, o, a);
    if a.Cleanup? && t.builds.Keys == {a.id} {
      assert t.builds - {a.id} == map[];
      assert a.id in t.builds;
    }
  }
}
