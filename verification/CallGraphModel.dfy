/** The call graphs of rt-thread/tools/WCS.py and what the worst-case stack of a function
    means, apart from how it is computed: the deepest of its call chains. */
module CallGraphModel {
  /** A global function, or one local to a translation unit. */
  datatype Key = Global(name: string) | Local(name: string, tu: string)

  /** What the object files, the call dumps and the stack usage files say about a function.
      A manual entry states the stack of a function that was not compiled here. */
  datatype Info = Info(tu: string, calls: set<string>, hasPtrCall: bool, localStack: nat, manual: bool)

  datatype Option<T> = None | Some(value: T)

  datatype Wcs = Unbounded | Bounded(size: nat)

  type Fxns = map<Key, Info>

  /** read_manual gives a manual entry no calls. */
  ghost predicate WellFormed(fxns: Fxns) {
    forall f :: f in fxns && fxns[f].manual ==> fxns[f].calls == {} && !fxns[f].hasPtrCall
  }

  /** find_fxn: a global function hides the local ones of the same name. */
  function FindFxn(fxns: Fxns, tu: string, name: string): (r: Option<Key>)
    ensures r.Some? ==> r.value in fxns && r.value.name == name && (r.value.Local? ==> r.value.tu == tu)
    ensures r.Some? && r.value.Local? ==> Global(name) !in fxns
    ensures r.None? <==> Global(name) !in fxns && Local(name, tu) !in fxns
  {
    if Global(name) in fxns then Some(Global(name))
    else if Local(name, tu) in fxns then Some(Local(name, tu))
    else None
  }

  ghost predicate Edge(fxns: Fxns, f: Key, c: Key) {
    f in fxns && exists name :: name in fxns[f].calls && FindFxn(fxns, fxns[f].tu, name) == Some(c)
  }

  /** A call of `f` that resolves to nothing. */
  ghost predicate Open(fxns: Fxns, f: Key, name: string) {
    f in fxns && name in fxns[f].calls && FindFxn(fxns, fxns[f].tu, name) == None
  }

  /** A call chain: every function calls the next one. */
  ghost predicate Chain(fxns: Fxns, p: seq<Key>) {
    |p| > 0 && p[0] in fxns && forall i :: 0 <= i < |p| - 1 ==> Link(fxns, p, i)
  }

  ghost predicate Link(fxns: Fxns, p: seq<Key>, i: nat)
    requires i + 1 < |p|
  {
    Edge(fxns, p[i], p[i + 1])
  }

  ghost predicate ChainFrom(fxns: Fxns, f: Key, p: seq<Key>) { Chain(fxns, p) && p[0] == f }

  lemma {:induction false} ChainInside(fxns: Fxns, p: seq<Key>, i: nat)
    requires Chain(fxns, p) && i < |p|
    ensures p[i] in fxns
  {
    if i > 0 { assert Link(fxns, p, i - 1); }
  }

  /** The stack a chain uses. */
  ghost function Total(fxns: Fxns, p: seq<Key>): nat
    requires forall f :: f in p ==> f in fxns
  {
    if p == [] then 0 else fxns[p[0]].localStack + Total(fxns, p[1..])
  }

  ghost predicate Uses(fxns: Fxns, p: seq<Key>, n: nat) {
    (forall f :: f in p ==> f in fxns) && Total(fxns, p) == n
  }

  /** A chain that ends in a function calling through a pointer, or in one already on it. */
  ghost predicate BadChain(fxns: Fxns, f: Key, p: seq<Key>) {
    ChainFrom(fxns, f, p) && p[|p| - 1] in fxns && (fxns[p[|p| - 1]].hasPtrCall || p[|p| - 1] in p[..|p| - 1])
  }

  ghost predicate Bad(fxns: Fxns, f: Key) { exists p :: BadChain(fxns, f, p) }

  /** `n` is the maximum of the stack over all call chains from `f`. */
  ghost predicate Exact(fxns: Fxns, f: Key, n: nat) {
    && (forall p, m: nat :: ChainFrom(fxns, f, p) && Uses(fxns, p, m) ==> m <= n)
    && exists p :: ChainFrom(fxns, f, p) && Uses(fxns, p, n)
  }

  /** `name` is an unresolved call of something `f` reaches. */
  ghost predicate OpenBelow(fxns: Fxns, f: Key, name: string) {
    exists p :: ChainFrom(fxns, f, p) && Open(fxns, p[|p| - 1], name)
  }

  /** What a finished entry of `f` has to say. */
  ghost predicate Sound(fxns: Fxns, f: Key, w: Wcs, open: set<string>) {
    match w
    case Unbounded => Bad(fxns, f)
    case Bounded(n) => !Bad(fxns, f) && Exact(fxns, f, n) && forall name :: name in open <==> OpenBelow(fxns, f, name)
  }

  // ------------------------------------------------------------------- chains

  lemma Prepend(fxns: Fxns, f: Key, c: Key, p: seq<Key>)
    requires Edge(fxns, f, c) && ChainFrom(fxns, c, p)
    ensures ChainFrom(fxns, f, [f] + p)
    ensures ([f] + p)[|[f] + p| - 1] == p[|p| - 1]
  {
    var q := [f] + p;
    forall i | 0 <= i < |q| - 1 ensures Link(fxns, q, i) {
      if i > 0 { assert Link(fxns, p, i - 1); }
    }
  }

  lemma Behead(fxns: Fxns, p: seq<Key>)
    requires Chain(fxns, p) && |p| > 1
    ensures Edge(fxns, p[0], p[1]) && ChainFrom(fxns, p[1], p[1..])
  {
    ChainInside(fxns, p, 1);
    assert Link(fxns, p, 0);
    forall i | 0 <= i < |p[1..]| - 1 ensures Link(fxns, p[1..], i) {
      assert Link(fxns, p, i + 1);
    }
  }

  lemma Append(fxns: Fxns, p: seq<Key>, c: Key)
    requires Chain(fxns, p) && Edge(fxns, p[|p| - 1], c)
    ensures Chain(fxns, p + [c])
  {
    forall i | 0 <= i < |p + [c]| - 1 ensures Link(fxns, p + [c], i) {
      if i < |p| - 1 { assert Link(fxns, p, i); }
    }
  }

  lemma Suffix(fxns: Fxns, p: seq<Key>, i: nat)
    requires Chain(fxns, p) && i < |p|
    ensures ChainFrom(fxns, p[i], p[i..])
  {
    ChainInside(fxns, p, i);
    forall j | 0 <= j < |p[i..]| - 1 ensures Link(fxns, p[i..], j) {
      assert Link(fxns, p, i + j);
    }
  }

  // --------------------------------------------------------- bad, one step up

  lemma PtrIsBad(fxns: Fxns, f: Key)
    requires f in fxns && fxns[f].hasPtrCall
    ensures Bad(fxns, f)
  {
    assert BadChain(fxns, f, [f]);
  }

  /** A function met again among its own callers is on a cycle. */
  lemma CycleIsBad(fxns: Fxns, parents: seq<Key>, f: Key)
    requires Chain(fxns, parents + [f]) && f in parents
    ensures Bad(fxns, f)
  {
    var p := parents + [f];
    var i :| 0 <= i < |parents| && parents[i] == f;
    Suffix(fxns, p, i);
    var q := p[i..];
    assert q[|q| - 1] == f && q[0] == f && |q| > 1;
    assert q[..|q| - 1][0] == f;
    assert BadChain(fxns, f, q);
  }

  lemma BadCallee(fxns: Fxns, f: Key, c: Key)
    requires Edge(fxns, f, c) && Bad(fxns, c)
    ensures Bad(fxns, f)
  {
    var p :| BadChain(fxns, c, p);
    Prepend(fxns, f, c, p);
    var q := [f] + p;
    assert q[..|q| - 1] == [f] + p[..|p| - 1];
    assert BadChain(fxns, f, q);
  }

  /** Nothing else makes a function bad: a cycle through `f` also goes through a callee. */
  lemma BadForAReason(fxns: Fxns, f: Key)
    requires f in fxns && Bad(fxns, f)
    ensures fxns[f].hasPtrCall || exists c :: Edge(fxns, f, c) && Bad(fxns, c)
  {
    var p :| BadChain(fxns, f, p);
    if |p| > 1 {
      Behead(fxns, p);
      var c, q, last := p[1], p[1..], p[|p| - 1];
      assert q[|q| - 1] == last;
      if fxns[last].hasPtrCall || last in q[..|q| - 1] {
        assert BadChain(fxns, c, q);
      } else {
        assert p[..|p| - 1] == [f] + q[..|q| - 1];
        Append(fxns, q, c);
        var r := q + [c];
        assert r[..|r| - 1] == q && q[0] == c;
        assert BadChain(fxns, c, r);
      }
    }
  }

  // ------------------------------------------------------- maximum, one step up

  lemma {:induction false} UsesStep(fxns: Fxns, f: Key, p: seq<Key>, n: nat)
    requires f in fxns && Uses(fxns, p, n)
    ensures Uses(fxns, [f] + p, fxns[f].localStack + n)
  {
    assert ([f] + p)[1..] == p;
  }

  lemma {:induction false} UsesSplit(fxns: Fxns, p: seq<Key>, n: nat)
    requires p != [] && Uses(fxns, p, n)
    ensures p[0] in fxns && fxns[p[0]].localStack <= n && Uses(fxns, p[1..], n - fxns[p[0]].localStack)
  {
  }

  lemma {:induction false} UsesSingle(fxns: Fxns, f: Key)
    requires f in fxns
    ensures ChainFrom(fxns, f, [f]) && Uses(fxns, [f], fxns[f].localStack)
  {
    assert [f][1..] == [];
  }

  /** `m` is 0 or the largest result among the callees. */
  ghost predicate CalleeMax(fxns: Fxns, f: Key, size: Key -> nat, m: nat) {
    && (forall c :: Edge(fxns, f, c) ==> Exact(fxns, c, size(c)) && size(c) <= m)
    && (m == 0 || exists c :: Edge(fxns, f, c) && size(c) == m)
  }

  lemma ExactStep(fxns: Fxns, f: Key, size: Key -> nat, m: nat)
    requires f in fxns && CalleeMax(fxns, f, size, m)
    ensures Exact(fxns, f, m + fxns[f].localStack)
  {
    var n := m + fxns[f].localStack;
    forall p, k: nat | ChainFrom(fxns, f, p) && Uses(fxns, p, k) ensures k <= n {
      UsesSplit(fxns, p, k);
      if |p| > 1 {
        Behead(fxns, p);
        assert Exact(fxns, p[1], size(p[1]));
      } else {
        assert p[1..] == [];
      }
    }
    if m == 0 {
      UsesSingle(fxns, f);
    } else {
      var c :| Edge(fxns, f, c) && size(c) == m;
      assert Exact(fxns, c, m);
      var p :| ChainFrom(fxns, c, p) && Uses(fxns, p, m);
      Prepend(fxns, f, c, p);
      UsesStep(fxns, f, p, m);
    }
  }

  /** The maximum is unique, so no order of visiting the functions can change a result. */
  lemma ExactUnique(fxns: Fxns, f: Key, n: nat, m: nat)
    requires Exact(fxns, f, n) && Exact(fxns, f, m)
    ensures n == m
  {
    var p :| ChainFrom(fxns, f, p) && Uses(fxns, p, n);
    var q :| ChainFrom(fxns, f, q) && Uses(fxns, q, m);
    assert n <= m && m <= n;
  }

  // ------------------------------------------------------ unresolved, one step up

  lemma OpenStep(fxns: Fxns, f: Key, name: string)
    requires f in fxns
    ensures OpenBelow(fxns, f, name) <==>
      Open(fxns, f, name) || exists c :: Edge(fxns, f, c) && OpenBelow(fxns, c, name)
  {
    if OpenBelow(fxns, f, name) {
      var p :| ChainFrom(fxns, f, p) && Open(fxns, p[|p| - 1], name);
      if |p| > 1 {
        Behead(fxns, p);
        assert p[1..][|p[1..]| - 1] == p[|p| - 1];
        assert OpenBelow(fxns, p[1], name);
      }
    }
    if Open(fxns, f, name) {
      assert ChainFrom(fxns, f, [f]) && [f][|[f]| - 1] == f;
    }
    if exists c :: Edge(fxns, f, c) && OpenBelow(fxns, c, name) {
      var c :| Edge(fxns, f, c) && OpenBelow(fxns, c, name);
      var p :| ChainFrom(fxns, c, p) && Open(fxns, p[|p| - 1], name);
      Prepend(fxns, f, c, p);
    }
  }

  /** A manual entry is right about itself: its only chain is itself. */
  lemma ManualSound(fxns: Fxns, f: Key)
    requires WellFormed(fxns) && f in fxns && fxns[f].manual
    ensures Sound(fxns, f, Bounded(fxns[f].localStack), {})
  {
    if Bad(fxns, f) { BadForAReason(fxns, f); }
    ExactStep(fxns, f, _ => 0, 0);
    forall name ensures !OpenBelow(fxns, f, name) {
      OpenStep(fxns, f, name);
    }
  }
}
