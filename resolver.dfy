// The search for the goto length (the loop in FSA5Serializer.serialize that
// starts at one byte and grows until two dry passes in a row succeed). This
// module names one attempt at a width and proves that the search ends: the
// offsets a pass records never exceed the loose layout in which no arc takes
// the target-next form, and once the width holds that layout's largest
// offset shifted left by three, both dry passes succeed.

module Resolver {
  import opened LittleEndian
  import opened Codec
  import opened Linearizer
  import opened Layout

  /** The result of trying one goto length: whether both dry passes
      succeeded, and the offset table they leave behind. */
  datatype Attempt = Attempt(accepted: bool, table: Table)

  /** One round of the search at width g from table t: a first dry pass and,
      only when it succeeds, a second one over the table it filled. */
  function TryWidth(c: Config, g: nat, t: Table): (r: Attempt)
    requires c.Valid()
  {
    var first := Pass(c, g, t, Dry);
    if !first.ok then Attempt(false, first.table)
    else
      var second := Pass(c, g, first.table, Dry);
      Attempt(second.ok, second.table)
  }

  /** Round g of the search, started from table before, was rejected and
      left table after behind. */
  ghost predicate RoundRejected(c: Config, g: nat, before: Table, after: Table)
    requires c.Valid()
  {
    !TryWidth(c, g, before).accepted && TryWidth(c, g, before).table == after
  }

  /** The rounds of the search so far: round g (counting from one) started
      from tried[g - 1], was rejected, and left tried[g] behind. */
  ghost predicate Rejected(c: Config, tried: seq<Table>)
    requires c.Valid()
  {
    forall g | 1 <= g < |tried| :: RoundRejected(c, g, tried[g - 1], tried[g])
  }

  /** A rejected round extends the history by the table it leaves. */
  lemma RejectedExtend(c: Config, tried: seq<Table>, t: Table)
    requires c.Valid() && |tried| >= 1 && Rejected(c, tried)
    requires RoundRejected(c, |tried|, tried[|tried| - 1], t)
    ensures Rejected(c, tried + [t])
  {
    var longer := tried + [t];
    forall g | 1 <= g < |longer|
      ensures RoundRejected(c, g, longer[g - 1], longer[g])
    {
      assert longer[g - 1] == tried[g - 1];
      if g < |tried| {
        assert longer[g] == tried[g];
      }
    }
  }

  /** The width the search accepts is final: with the table the accepted
      round leaves, the real pass succeeds, meets every state at its recorded
      offset, and that offset is the state's place in the tight layout. */
  lemma AcceptedIsFinal(c: Config, g: nat, t: Table, os: seq<byte>)
    requires c.Valid() && Distinct(c.lin) && g >= 1
    requires TryWidth(c, g, t).accepted
    ensures var t2 := TryWidth(c, g, t).table;
      && Pass(c, g, t2, Stream(os)).ok
      && ConsistentFrom(c, g, 0, Base(c, g), t2)
      && (forall i | 0 <= i < |c.lin| :: Get(t2, c.lin[i]) == TightStart(c, g, i))
  {
    AcceptedLayoutIsConsistent(c, g, t, os);
  }

  /** No offset in t exceeds cap. */
  ghost predicate Bounded(t: Table, cap: nat)
  {
    forall k {:trigger Get(t, k)} :: Get(t, k) <= cap
  }

  /** The largest offset a table holds. */
  ghost function MaxValue(t: Table): (m: nat)
    ensures Bounded(t, m)
    decreases t.Keys
  {
    if t == map[] then 0
    else
      var k :| k in t;
      var rest := t - {k};
      assert forall x | x != k :: Get(t, x) == Get(rest, x);
      var m := MaxValue(rest);
      if t[k] > m then t[k] else m
  }

  /** The bytes n arcs take when none uses the target-next form: 1 + g
      each. */
  function LooseArcs(g: nat, n: nat): nat
  {
    if n == 0 then 0 else 1 + g + LooseArcs(g, n - 1)
  }

  lemma {:induction false} LooseArcsIsProduct(g: nat, n: nat)
    ensures LooseArcs(g, n) == n * (1 + g)
  {
    if n > 0 {
      LooseArcsIsProduct(g, n - 1);
    }
  }

  /** The offset of the i-th listed state when no arc uses the target-next
      form. */
  function LooseStart(c: Config, g: nat, i: nat): nat
    requires c.Valid() && i <= |c.lin|
  {
    if i == 0 then Base(c, g)
    else LooseStart(c, g, i - 1) + c.nodeDataLength + LooseArcs(g, |c.StateArcs(i - 1)|)
  }

  lemma MulMono(a: nat, x: nat, y: nat)
    requires x <= y
    ensures a * x <= a * y
  {
    MulNonneg(a, y - x);
    assert a * y - a * x == a * (y - x);
  }

  /** An arc never takes more than 1 + g bytes when g is at least one. */
  lemma {:induction false} ArcsSizeAtMost(c: Config, g: nat, j: nat, arcs: seq<nat>, t: Table)
    requires c.Valid() && j < |c.lin| && c.ArcIds(arcs) && g >= 1
    ensures ArcsSize(c, g, j, arcs, t) <= LooseArcs(g, |arcs|)
  {
    if arcs != [] {
      ArcsSizeAtMost(c, g, j, arcs[1..], t);
    }
  }

  /** Later states sit further along in the loose layout. */
  lemma {:induction false} LooseStartMono(c: Config, g: nat, i: nat, k: nat)
    requires c.Valid() && i <= k <= |c.lin|
    ensures LooseStart(c, g, i) <= LooseStart(c, g, k)
    decreases k - i
  {
    if i < k {
      LooseStartMono(c, g, i, k - 1);
    }
  }

  /** A wider goto length never shrinks the loose layout. */
  lemma {:induction false} LooseStartGrows(c: Config, g: nat, h: nat, i: nat)
    requires c.Valid() && g <= h && i <= |c.lin|
    ensures LooseStart(c, g, i) <= LooseStart(c, h, i)
  {
    if i > 0 {
      LooseStartGrows(c, g, h, i - 1);
      var n := |c.StateArcs(i - 1)|;
      LooseArcsIsProduct(g, n);
      LooseArcsIsProduct(h, n);
      MulMono(n, 1 + g, 1 + h);
    }
  }

  /** The arithmetic of one step of LooseStartLinear. */
  lemma LinearStep(g: nat, x: nat, y: nat, d: nat, a: nat)
    requires g >= 1 && y <= g * x
    ensures y + d + a * (1 + g) <= g * (x + d + a * 2)
  {
    MulAtLeast(d, g);
    MulAtLeast(a, g);
    assert a * (1 + g) == a + a * g;
    assert g * (x + d + a * 2) == g * x + g * d + 2 * (a * g);
  }

  /** The arithmetic of the first state's offset in LooseStartLinear. */
  lemma LinearBase(g: nat, d: nat, e: nat)
    requires g >= 1 && e <= 1 + g
    ensures 2 * d + (1 + g) + e <= g * (2 * d + 4)
  {
    MulAtLeast(d, g);
    assert g * (2 * d + 4) == 2 * (g * d) + 4 * g;
  }

  /** The loose layout at width g is at most g times the one at width 1. */
  lemma {:induction false} LooseStartLinear(c: Config, g: nat, i: nat)
    requires c.Valid() && g >= 1 && i <= |c.lin|
    ensures LooseStart(c, g, i) <= g * LooseStart(c, 1, i)
  {
    var d := c.nodeDataLength;
    if i == 0 {
      LinearBase(g, d, ArcSize(EpsilonFlags(c), g));
    } else {
      LooseStartLinear(c, g, i - 1);
      var n := |c.StateArcs(i - 1)|;
      LooseArcsIsProduct(g, n);
      LooseArcsIsProduct(1, n);
      LinearStep(g, LooseStart(c, 1, i - 1), LooseStart(c, g, i - 1), d, n);
    }
  }

  /** 256^n outgrows 8n^2 + 8. */
  lemma {:induction false} PowOutgrows(n: nat)
    requires n >= 1
    ensures 8 * (n * n) + 8 <= Pow256(n)
  {
    if n > 1 {
      PowOutgrows(n - 1);
      var m := n - 1;
      MulAtLeast(m, m);
      assert n * n == m * m + 2 * m + 1;
    }
  }

  /** The arithmetic of WideEnough. */
  lemma CapArithmetic(n: nat, l1: nat, loose: nat, m0: nat)
    requires n == m0 + l1 + 1 && loose <= n * l1
    ensures loose <= n * n && m0 <= n * n && 8 * (n * n) + 8 <= Pow256(n)
  {
    MulMono(n, l1, n);
    MulAtLeast(n, n);
    PowOutgrows(n);
  }

  /** A width at which every offset of the loose layout, and every value of
      a table bounded by m0, fits an arc address. */
  function WideWidth(c: Config, m0: nat): nat
    requires c.Valid()
  {
    m0 + LooseStart(c, 1, |c.lin|) + 1
  }

  /** The cap on table values kept throughout the search. */
  function SearchCap(c: Config, m0: nat): nat
    requires c.Valid()
  {
    var loose := LooseStart(c, WideWidth(c, m0), |c.lin|);
    if m0 > loose then m0 else loose
  }

  /** WideWidth is wide enough: the cap shifted left by three, plus the flag
      bits, fits in that many bytes. */
  lemma WideEnough(c: Config, m0: nat)
    requires c.Valid()
    ensures WideWidth(c, m0) >= 1
    ensures LooseStart(c, WideWidth(c, m0), |c.lin|) <= SearchCap(c, m0)
    ensures 8 * SearchCap(c, m0) + 8 <= Pow256(WideWidth(c, m0))
  {
    var n := WideWidth(c, m0);
    LooseStartLinear(c, n, |c.lin|);
    CapArithmetic(n, LooseStart(c, 1, |c.lin|), LooseStart(c, n, |c.lin|), m0);
  }

  /** With every looked-up offset at most cap and 8 cap + 8 <= 256^g, every
      arc fits. */
  lemma {:induction false} ArcsFitWhenWide(c: Config, g: nat, j: nat, arcs: seq<nat>, t: Table, cap: nat)
    requires c.Valid() && j < |c.lin| && c.ArcIds(arcs) && g >= 1
    requires Bounded(t, cap) && 8 * cap + 8 <= Pow256(g)
    ensures ArcsFit(c, g, j, arcs, t)
  {
    if arcs != [] {
      var a := arcs[0];
      RecordFlags(c, j, a, t);
      assert Pow256(SizeofFlags) >= 256;
      if !c.fsa.isTerminal[a] {
        assert Get(t, c.fsa.endNode[a]) <= cap;
      }
      ArcsFitWhenWide(c, g, j, arcs[1..], t, cap);
    }
  }

  /** One state of a dry pass within the cap: recording the state's offset
      keeps the table within the cap, the next state is no further than in
      the loose layout, and the arcs fit once the width holds the cap. */
  lemma BoundedStep(c: Config, g: nat, j: nat, offset: nat, t: Table, cap: nat)
    requires c.Valid() && g >= 1 && j < |c.lin|
    requires offset <= LooseStart(c, g, j) && LooseStart(c, g, |c.lin|) <= cap
    requires Bounded(t, cap)
    ensures Bounded(t[c.lin[j] := offset], cap)
    ensures offset + StateSize(c, g, j, t[c.lin[j] := offset]) <= LooseStart(c, g, j + 1)
    ensures 8 * cap + 8 <= Pow256(g) ==> StateFits(c, g, j, t[c.lin[j] := offset])
  {
    var t' := t[c.lin[j] := offset];
    LooseStartMono(c, g, j, |c.lin|);
    forall k
      ensures Get(t', k) <= cap
    {
      if k != c.lin[j] {
        assert Get(t', k) == Get(t, k);
      }
    }
    ArcsSizeAtMost(c, g, j, c.StateArcs(j), t');
    if 8 * cap + 8 <= Pow256(g) {
      ArcsFitWhenWide(c, g, j, c.StateArcs(j), t', cap);
    }
  }

  /** A dry pass keeps a table bounded by any cap that covers the loose
      layout, and succeeds when the width holds the cap. */
  lemma {:induction false} DryPassBounded(c: Config, g: nat, j: nat, offset: nat, t: Table, cap: nat)
    requires c.Valid() && g >= 1 && j <= |c.lin|
    requires offset <= LooseStart(c, g, j) && LooseStart(c, g, |c.lin|) <= cap
    requires Bounded(t, cap)
    ensures Bounded(PassFrom(c, g, j, offset, t, Dry).table, cap)
    ensures 8 * cap + 8 <= Pow256(g) ==> PassFrom(c, g, j, offset, t, Dry).ok
    decreases |c.lin| - j
  {
    if j < |c.lin| {
      var t' := t[c.lin[j] := offset];
      var next := offset + StateSize(c, g, j, t');
      BoundedStep(c, g, j, offset, t, cap);
      DryPassBounded(c, g, j + 1, next, t', cap);
      var r := PassFrom(c, g, j, offset, t, Dry);
      if StateFits(c, g, j, t') {
        assert r == PassFrom(c, g, j + 1, next, t', Dry);
      } else {
        assert r == PassResult(false, t', Dry, next);
        assert r.table == t' && !(8 * cap + 8 <= Pow256(g));
      }
    }
  }

  /** One round of the search keeps the table within the cap, and is
      accepted once the width holds the cap. */
  lemma TryWidthBounded(c: Config, g: nat, t: Table, cap: nat)
    requires c.Valid() && g >= 1
    requires LooseStart(c, g, |c.lin|) <= cap && Bounded(t, cap)
    ensures Bounded(TryWidth(c, g, t).table, cap)
    ensures 8 * cap + 8 <= Pow256(g) ==> TryWidth(c, g, t).accepted
  {
    DryPassBounded(c, g, 0, Base(c, g), t, cap);
    DryPassBounded(c, g, 0, Base(c, g), Pass(c, g, t, Dry).table, cap);
  }

  /** The search ends: from any starting table, some width no greater than
      WideWidth is accepted, whatever tables the earlier rounds leave. */
  lemma SearchEnds(c: Config, g: nat, t: Table, m0: nat)
    requires c.Valid() && 1 <= g <= WideWidth(c, m0)
    requires Bounded(t, SearchCap(c, m0))
    ensures Bounded(TryWidth(c, g, t).table, SearchCap(c, m0))
    ensures g == WideWidth(c, m0) ==> TryWidth(c, g, t).accepted
  {
    WideEnough(c, m0);
    LooseStartGrows(c, g, WideWidth(c, m0), |c.lin|);
    TryWidthBounded(c, g, t, SearchCap(c, m0));
  }
}
