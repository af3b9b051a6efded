/** The analysis of rt-thread/tools/WCS.py on the dictionaries it updates. */
module CallGraph {
  import opened CallGraphModel

  class Analysis {
    const fxns: Fxns
    var rCalls: map<Key, seq<Key>>
    var unresolved: map<Key, set<string>>
    var wcs: map<Key, Wcs>

    constructor (fxns: Fxns)
      ensures this.fxns == fxns
    {
      this.fxns := fxns;
      rCalls, unresolved, wcs := map[], map[], map[];
    }

    /** r_calls of `f` are its callees; its unresolved calls are the other names. */
    ghost predicate Resolved(f: Key)
      reads this
      requires f in fxns
    {
      && f in rCalls && (forall c :: c in rCalls[f] <==> Edge(fxns, f, c))
      && f in unresolved && forall name :: name in unresolved[f] <==> Open(fxns, f, name)
    }

    /** resolve_calls */
    method ResolveCalls(f: Key)
      requires f in fxns
      modifies this`rCalls, this`unresolved
      ensures Resolved(f)
      ensures forall g :: g in fxns && g != f && old(Resolved(g)) ==> Resolved(g)
    {
      var calls: seq<Key>, open: set<string> := [], {};
      var todo := fxns[f].calls;
      while todo != {}
        invariant todo <= fxns[f].calls
        invariant forall c :: c in calls <==>
          exists name :: name in fxns[f].calls - todo && FindFxn(fxns, fxns[f].tu, name) == Some(c)
        invariant forall name :: name in open <==>
          name in fxns[f].calls - todo && FindFxn(fxns, fxns[f].tu, name) == None
        decreases |todo|
      {
        var call :| call in todo;
        todo := todo - {call};
        var found := FindFxn(fxns, fxns[f].tu, call);
        if found.Some? {
          calls := calls + [found.value];
        } else {
          open := open + {call};
        }
      }
      assert fxns[f].calls - todo == fxns[f].calls;
      rCalls := rCalls[f := calls];
      unresolved := unresolved[f := open];
    }

    /** resolve_all_calls; the manual entries come with their result. */
    method ResolveAllCalls()
      requires WellFormed(fxns)
      modifies this
      ensures forall f :: f in fxns ==> Resolved(f)
      ensures AllResolved() && InProgress(fxns, unresolved, wcs, [])
    {
      var todo := fxns.Keys;
      while todo != {}
        invariant todo <= fxns.Keys
        invariant forall f :: f in fxns && f !in todo ==> Resolved(f)
        decreases |todo|
      {
        var f :| f in todo;
        todo := todo - {f};
        ResolveCalls(f);
      }
      ManualProgress(fxns, unresolved);
      wcs := Manual(fxns);
    }

    ghost predicate AllResolved()
      reads this`rCalls
    {
      forall f :: f in fxns ==> f in rCalls && forall c :: c in rCalls[f] <==> Edge(fxns, f, c)
    }

    method MarkUnbounded(f: Key, ghost parents: seq<Key>)
      requires InProgress(fxns, unresolved, wcs, parents + [f]) && f in fxns && Bad(fxns, f)
      modifies this`wcs
      ensures InProgress(fxns, unresolved, wcs, parents) && f in wcs && Keeps(old(wcs), wcs)
    {
      SetUnbounded(fxns, unresolved, wcs, parents, f);
      wcs := wcs[f := Unbounded];
    }

    method MarkBounded(f: Key, size: nat, ghost parents: seq<Key>)
      requires InProgress(fxns, unresolved, wcs[f := Bounded(size)], parents) && Keeps(wcs, wcs[f := Bounded(size)])
      modifies this`wcs
      ensures InProgress(fxns, unresolved, wcs, parents) && f in wcs && Keeps(old(wcs), wcs)
    {
      wcs := wcs[f := Bounded(size)];
    }

    /** calc_wcs: a depth-first walk that remembers results; `parents` are the functions in
        progress. */
    method CalcWcs(f: Key, parents: seq<Key>)
      requires AllResolved() && InProgress(fxns, unresolved, wcs, parents) && Chain(fxns, parents + [f])
      modifies this`wcs, this`unresolved
      ensures InProgress(fxns, unresolved, wcs, parents) && f in wcs
      ensures Keeps(old(wcs), wcs) && Untouched(fxns, old(unresolved), unresolved, parents)
      decreases fxns.Keys - Elements(parents), 3
    {
      if f in wcs { return; }
      ChainInside(fxns, parents + [f], |parents|);
      Push(fxns, unresolved, wcs, parents, f);
      if fxns[f].hasPtrCall || f in parents {
        if fxns[f].hasPtrCall { PtrIsBad(fxns, f); } else { CycleIsBad(fxns, parents, f); }
        MarkUnbounded(f, parents);
      } else {
        CalcNew(f, parents);
      }
    }

    /** The part of calc_wcs behind its early returns. */
    method CalcNew(f: Key, parents: seq<Key>)
      requires AllResolved() && InProgress(fxns, unresolved, wcs, parents + [f]) && Chain(fxns, parents + [f])
      requires f in fxns && f !in parents && !fxns[f].hasPtrCall && OpenSoFar(fxns, unresolved, f, [])
      modifies this`wcs, this`unresolved
      ensures InProgress(fxns, unresolved, wcs, parents) && f in wcs
      ensures Keeps(old(wcs), wcs) && Untouched(fxns, old(unresolved), unresolved, parents)
      decreases fxns.Keys - Elements(parents), 2
    {
      var bounded, callMax := CalcCallees(f, parents);
      ghost var wcs0 := wcs;
      if bounded {
        FinishSound(fxns, unresolved, wcs, parents, f, rCalls[f], callMax);
        MarkBounded(f, callMax + fxns[f].localStack, parents);
      } else {
        MarkUnbounded(f, parents);
      }
      KeepsTrans(old(wcs), wcs0, wcs);
    }

    /** The loop of calc_wcs over the callees of `f`, which stops at the first unbounded one. */
    method CalcCallees(f: Key, parents: seq<Key>) returns (bounded: bool, callMax: nat)
      requires AllResolved() && InProgress(fxns, unresolved, wcs, parents + [f]) && Chain(fxns, parents + [f])
      requires f in fxns && f !in parents && OpenSoFar(fxns, unresolved, f, [])
      modifies this`wcs, this`unresolved
      ensures InProgress(fxns, unresolved, wcs, parents + [f])
      ensures Keeps(old(wcs), wcs) && Untouched(fxns, old(unresolved), unresolved, parents)
      ensures if bounded then MaxOf(wcs, rCalls[f], callMax) && OpenSoFar(fxns, unresolved, f, rCalls[f]) else Bad(fxns, f)
      decreases fxns.Keys - Elements(parents), 1
    {
      var calls := rCalls[f];
      bounded, callMax := true, 0;
      assert calls[..0] == [];
      for i := 0 to |calls|
        invariant bounded && InProgress(fxns, unresolved, wcs, parents + [f])
        invariant Keeps(old(wcs), wcs) && Untouched(fxns, old(unresolved), unresolved, parents)
        invariant MaxOf(wcs, calls[..i], callMax)
        invariant OpenSoFar(fxns, unresolved, f, calls[..i])
      {
        ghost var wcs0, unresolved0 := wcs, unresolved;
        assert calls[i] in calls && calls[..i + 1] == calls[..i] + [calls[i]];
        bounded, callMax := CalcCall(f, parents, calls[i], calls[..i], callMax);
        KeepsTrans(old(wcs), wcs0, wcs);
        UntouchedTrans(fxns, old(unresolved), unresolved0, unresolved, parents);
        if !bounded { return; }
      }
      assert calls[..|calls|] == calls;
    }

    /** One callee of `f`: its own result first, then its share of the maximum and of the
        unresolved calls. */
    method CalcCall(f: Key, parents: seq<Key>, call: Key, ghost done: seq<Key>, callMax0: nat) returns (bounded: bool, callMax: nat)
      requires AllResolved() && InProgress(fxns, unresolved, wcs, parents + [f]) && Chain(fxns, parents + [f])
      requires f in fxns && f !in parents && Edge(fxns, f, call)
      requires MaxOf(wcs, done, callMax0) && OpenSoFar(fxns, unresolved, f, done)
      modifies this`wcs, this`unresolved
      ensures InProgress(fxns, unresolved, wcs, parents + [f])
      ensures Keeps(old(wcs), wcs) && Untouched(fxns, old(unresolved), unresolved, parents)
      ensures if bounded then MaxOf(wcs, done + [call], callMax) && OpenSoFar(fxns, unresolved, f, done + [call]) else Bad(fxns, f)
      decreases fxns.Keys - Elements(parents), 0
    {
      Smaller(fxns, parents, f);
      Append(fxns, parents + [f], call);
      CalcWcs(call, parents + [f]);
      UntouchedFirst(fxns, old(unresolved), unresolved, parents, f);
      bounded, callMax := wcs[call].Bounded?, callMax0;
      if bounded {
        MaxKept(old(wcs), wcs, done, callMax0, call);
        callMax := if callMax0 >= wcs[call].size then callMax0 else wcs[call].size;
        Propagate(f, parents, call, done);
      } else {
        UnboundedCallee(fxns, unresolved, wcs, parents + [f], f, call);
      }
    }

    /** The unresolved calls of a callee become the caller's. */
    method Propagate(f: Key, ghost parents: seq<Key>, call: Key, ghost done: seq<Key>)
      requires InProgress(fxns, unresolved, wcs, parents + [f]) && f in fxns && f !in parents && Edge(fxns, f, call)
      requires OpenSoFar(fxns, unresolved, f, done) && call in wcs && wcs[call].Bounded?
      modifies this`unresolved
      ensures InProgress(fxns, unresolved, wcs, parents + [f]) && OpenSoFar(fxns, unresolved, f, done + [call])
      ensures forall g :: g in old(unresolved) && g != f ==> g in unresolved && unresolved[g] == old(unresolved)[g]
    {
      assert Sound(fxns, call, wcs[call], unresolved[call]);
      AccumulateOpen(fxns, unresolved, wcs, f, done, call);
      AccumulateProgress(fxns, unresolved, wcs, parents, f, call);
      unresolved := unresolved[f := unresolved[f] + unresolved[call]];
    }

    /** calc_all_wcs, in whatever order the dictionaries are walked. */
    method CalcAllWcs()
      requires AllResolved() && InProgress(fxns, unresolved, wcs, [])
      modifies this`wcs, this`unresolved
      ensures wcs.Keys == fxns.Keys
      ensures forall f :: f in fxns ==> f in unresolved && Right(fxns, f, wcs[f], unresolved[f])
    {
      var todo := fxns.Keys;
      while todo != {}
        invariant todo <= fxns.Keys && InProgress(fxns, unresolved, wcs, [])
        invariant fxns.Keys - todo <= wcs.Keys
        decreases |todo|
      {
        var f :| f in todo;
        todo := todo - {f};
        assert [] + [f] == [f];
        CalcWcs(f, []);
      }
      forall f | f in fxns ensures Right(fxns, f, wcs[f], unresolved[f]) {
        assert f in wcs.Keys && Sound(fxns, f, wcs[f], unresolved[f]);
      }
    }
  }

  /** Numeric exactly where no pointer call and no cycle is reachable, and then the maximum
      over all call chains, with every unresolved name that is reachable. */
  ghost predicate Right(fxns: Fxns, f: Key, w: Wcs, open: set<string>) {
    && (w.Unbounded? <==> Bad(fxns, f))
    && (w.Bounded? ==> Exact(fxns, f, w.size) && forall name :: name in open <==> OpenBelow(fxns, f, name))
  }

  /** The results that manual entries come with. */
  function Manual(fxns: Fxns): map<Key, Wcs> {
    map f | f in fxns && fxns[f].manual :: Bounded(fxns[f].localStack)
  }

  lemma ManualProgress(fxns: Fxns, unresolved: map<Key, set<string>>)
    requires WellFormed(fxns)
    requires forall f :: f in fxns ==> f in unresolved && forall name :: name in unresolved[f] <==> Open(fxns, f, name)
    ensures InProgress(fxns, unresolved, Manual(fxns), [])
  {
    var wcs := Manual(fxns);
    forall f | f in wcs ensures Sound(fxns, f, wcs[f], unresolved[f]) {
      ManualSound(fxns, f);
      assert unresolved[f] == {};
    }
  }

  ghost function Elements(s: seq<Key>): set<Key> { set x | x in s }

  /** Every finished entry is right; no other entry has been touched, except those of the
      functions in progress, whose unresolved calls may be incomplete. */
  ghost predicate InProgress(fxns: Fxns, unresolved: map<Key, set<string>>, wcs: map<Key, Wcs>, parents: seq<Key>) {
    && (forall f :: f in fxns ==> f in unresolved)
    && wcs.Keys <= fxns.Keys
    && (forall f {:trigger Sound(fxns, f, wcs[f], unresolved[f])} :: f in wcs ==> Sound(fxns, f, wcs[f], unresolved[f]))
    && (forall f :: f in fxns && f !in wcs && f !in parents ==>
          forall name :: name in unresolved[f] <==> Open(fxns, f, name))
  }

  ghost predicate MaxOf(wcs: map<Key, Wcs>, calls: seq<Key>, m: nat) {
    && (forall c :: c in calls ==> c in wcs && wcs[c].Bounded? && wcs[c].size <= m)
    && (m == 0 || exists c :: c in calls && wcs[c].size == m)
  }

  ghost predicate OpenBelowAny(fxns: Fxns, calls: seq<Key>, name: string) {
    exists c :: c in calls && OpenBelow(fxns, c, name)
  }

  /** What `f`, in progress, has collected after the callees `calls`. */
  ghost predicate OpenSoFar(fxns: Fxns, unresolved: map<Key, set<string>>, f: Key, calls: seq<Key>) {
    f in unresolved && forall name :: name in unresolved[f] <==> Open(fxns, f, name) || OpenBelowAny(fxns, calls, name)
  }

  ghost predicate Keeps(wcs: map<Key, Wcs>, wcs': map<Key, Wcs>) {
    forall g :: g in wcs ==> g in wcs' && wcs'[g] == wcs[g]
  }

  ghost predicate Untouched(fxns: Fxns, unresolved: map<Key, set<string>>, unresolved': map<Key, set<string>>, parents: seq<Key>) {
    forall g :: g in parents && g in fxns && g in unresolved ==> g in unresolved' && unresolved'[g] == unresolved[g]
  }

  lemma KeepsTrans(a: map<Key, Wcs>, b: map<Key, Wcs>, c: map<Key, Wcs>)
    requires Keeps(a, b) && Keeps(b, c)
    ensures Keeps(a, c)
  {
  }

  lemma UntouchedTrans(fxns: Fxns, a: map<Key, set<string>>, b: map<Key, set<string>>, c: map<Key, set<string>>, parents: seq<Key>)
    requires Untouched(fxns, a, b, parents) && Untouched(fxns, b, c, parents)
    ensures Untouched(fxns, a, c, parents)
  {
  }

  lemma UntouchedFirst(fxns: Fxns, unresolved: map<Key, set<string>>, unresolved': map<Key, set<string>>, parents: seq<Key>, f: Key)
    requires Untouched(fxns, unresolved, unresolved', parents + [f]) && f in fxns && f in unresolved
    ensures Untouched(fxns, unresolved, unresolved', parents)
    ensures f in unresolved' && unresolved'[f] == unresolved[f]
  {
    assert f in parents + [f];
    forall g | g in parents ensures g in parents + [f] { }
  }

  lemma Smaller(fxns: Fxns, parents: seq<Key>, f: Key)
    requires f in fxns && f !in parents
    ensures fxns.Keys - Elements(parents + [f]) < fxns.Keys - Elements(parents)
  {
    assert f in fxns.Keys - Elements(parents) && f in Elements(parents + [f]);
  }

  lemma Push(fxns: Fxns, unresolved: map<Key, set<string>>, wcs: map<Key, Wcs>, parents: seq<Key>, f: Key)
    requires InProgress(fxns, unresolved, wcs, parents) && f in fxns && f !in wcs
    ensures InProgress(fxns, unresolved, wcs, parents + [f])
    ensures f !in parents ==> OpenSoFar(fxns, unresolved, f, [])
  {
  }

  lemma SetUnbounded(fxns: Fxns, unresolved: map<Key, set<string>>, wcs: map<Key, Wcs>, parents: seq<Key>, f: Key)
    requires InProgress(fxns, unresolved, wcs, parents + [f]) && f in fxns && Bad(fxns, f)
    ensures InProgress(fxns, unresolved, wcs[f := Unbounded], parents)
    ensures Keeps(wcs, wcs[f := Unbounded])
  {
    if f in wcs { assert Sound(fxns, f, wcs[f], unresolved[f]); }
  }

  lemma UnboundedCallee(fxns: Fxns, unresolved: map<Key, set<string>>, wcs: map<Key, Wcs>, parents: seq<Key>, f: Key, call: Key)
    requires InProgress(fxns, unresolved, wcs, parents) && Edge(fxns, f, call) && call in wcs && wcs[call].Unbounded?
    ensures Bad(fxns, f)
  {
    assert Sound(fxns, call, wcs[call], unresolved[call]);
    BadCallee(fxns, f, call);
  }

  lemma MaxKept(wcs: map<Key, Wcs>, wcs': map<Key, Wcs>, calls: seq<Key>, m: nat, call: Key)
    requires MaxOf(wcs, calls, m) && Keeps(wcs, wcs') && call in wcs' && wcs'[call].Bounded?
    ensures MaxOf(wcs', calls + [call], if m >= wcs'[call].size then m else wcs'[call].size)
  {
    if m == 0 || m < wcs'[call].size {
      assert call in calls + [call];
    } else {
      var c :| c in calls && wcs[c].size == m;
      assert c in calls + [call] && wcs'[c].size == m;
    }
  }

  lemma AccumulateOpen(fxns: Fxns, unresolved: map<Key, set<string>>, wcs: map<Key, Wcs>, f: Key, calls: seq<Key>, call: Key)
    requires OpenSoFar(fxns, unresolved, f, calls) && call in wcs && call in unresolved && wcs[call].Bounded?
    requires Sound(fxns, call, wcs[call], unresolved[call])
    ensures OpenSoFar(fxns, unresolved[f := unresolved[f] + unresolved[call]], f, calls + [call])
  {
    forall name ensures OpenBelowAny(fxns, calls + [call], name) <==> OpenBelowAny(fxns, calls, name) || OpenBelow(fxns, call, name) {
      assert call in calls + [call];
    }
  }

  lemma AccumulateProgress(fxns: Fxns, unresolved: map<Key, set<string>>, wcs: map<Key, Wcs>, parents: seq<Key>, f: Key, call: Key)
    requires InProgress(fxns, unresolved, wcs, parents + [f]) && f in fxns && Edge(fxns, f, call)
    requires call in wcs && wcs[call].Bounded?
    ensures InProgress(fxns, unresolved[f := unresolved[f] + unresolved[call]], wcs, parents + [f])
  {
    assert Sound(fxns, call, wcs[call], unresolved[call]);
    if f in wcs && wcs[f].Bounded? {
      assert Sound(fxns, f, wcs[f], unresolved[f]);
      forall name | name in unresolved[call] ensures name in unresolved[f] {
        OpenStep(fxns, f, name);
      }
      assert unresolved[f] + unresolved[call] == unresolved[f];
    }
    var unresolved' := unresolved[f := unresolved[f] + unresolved[call]];
    forall g | g in wcs ensures Sound(fxns, g, wcs[g], unresolved'[g]) {
      assert Sound(fxns, g, wcs[g], unresolved[g]);
    }
  }

  /** Numeric results for all callees give the exact result for the caller. */
  lemma FinishSound(fxns: Fxns, unresolved: map<Key, set<string>>, wcs: map<Key, Wcs>, parents: seq<Key>,
                    f: Key, calls: seq<Key>, m: nat)
    requires InProgress(fxns, unresolved, wcs, parents + [f]) && f in fxns && !fxns[f].hasPtrCall
    requires forall c :: c in calls <==> Edge(fxns, f, c)
    requires MaxOf(wcs, calls, m)
    requires OpenSoFar(fxns, unresolved, f, calls)
    ensures InProgress(fxns, unresolved, wcs[f := Bounded(m + fxns[f].localStack)], parents)
    ensures Keeps(wcs, wcs[f := Bounded(m + fxns[f].localStack)])
  {
    forall c | Edge(fxns, f, c) ensures !Bad(fxns, c) {
      assert c in calls && Sound(fxns, c, wcs[c], unresolved[c]);
    }
    if Bad(fxns, f) { BadForAReason(fxns, f); }
    ExactFromMax(fxns, unresolved, wcs, parents + [f], f, calls, m);
    OpenIsComplete(fxns, unresolved, f, calls);
    if f in wcs { assert Sound(fxns, f, wcs[f], unresolved[f]); }
    if f in wcs { SameResult(fxns, f, wcs[f], Bounded(m + fxns[f].localStack), unresolved[f]); }
    var wcs' := wcs[f := Bounded(m + fxns[f].localStack)];
    forall g | g in wcs' ensures Sound(fxns, g, wcs'[g], unresolved[g]) {
      if g in wcs { assert Sound(fxns, g, wcs[g], unresolved[g]); }
    }
  }

  /** A function has one right result. */
  lemma SameResult(fxns: Fxns, f: Key, a: Wcs, b: Wcs, open: set<string>)
    requires Sound(fxns, f, a, open) && Sound(fxns, f, b, open)
    ensures a == b
  {
    if a.Bounded? && b.Bounded? { ExactUnique(fxns, f, a.size, b.size); }
  }

  lemma ExactFromMax(fxns: Fxns, unresolved: map<Key, set<string>>, wcs: map<Key, Wcs>, parents: seq<Key>,
                     f: Key, calls: seq<Key>, m: nat)
    requires InProgress(fxns, unresolved, wcs, parents) && f in fxns
    requires (forall c :: c in calls <==> Edge(fxns, f, c)) && MaxOf(wcs, calls, m)
    ensures Exact(fxns, f, m + fxns[f].localStack)
  {
    var size: Key -> nat := c => if c in wcs && wcs[c].Bounded? then wcs[c].size else 0;
    forall c | Edge(fxns, f, c) ensures Exact(fxns, c, size(c)) && size(c) <= m {
      assert c in calls && Sound(fxns, c, wcs[c], unresolved[c]);
    }
    ExactStep(fxns, f, size, m);
  }

  lemma OpenIsComplete(fxns: Fxns, unresolved: map<Key, set<string>>, f: Key, calls: seq<Key>)
    requires f in fxns && OpenSoFar(fxns, unresolved, f, calls)
    requires forall c :: c in calls <==> Edge(fxns, f, c)
    ensures forall name :: name in unresolved[f] <==> OpenBelow(fxns, f, name)
  {
    forall name ensures name in unresolved[f] <==> OpenBelow(fxns, f, name) {
      OpenStep(fxns, f, name);
      assert OpenBelowAny(fxns, calls, name) <==> exists c :: Edge(fxns, f, c) && OpenBelow(fxns, c, name);
    }
  }
}
