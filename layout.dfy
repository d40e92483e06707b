// The layout of an FSA5 stream, as one pass of FSA5Serializer.emitArcs
// computes it: the dummy terminal state and the epsilon state first, then
// every listed state's node data and arc records. A dry pass records each
// state's offset in the offset table; the real pass writes the bytes. This
// module states one pass as a function and proves that once two dry passes
// at the same goto length succeed, the real pass succeeds and meets every
// state at the offset the table holds for it.

module Layout {
  import opened LittleEndian
  import opened Automaton
  import opened Codec
  import opened Linearizer

  /** A state-to-int hash map; a missing key reads as 0. */
  type Table = map<nat, nat>

  function Get(t: Table, k: nat): nat
  {
    if k in t then t[k] else 0
  }

  /** No offset in lower exceeds the one in t. */
  ghost predicate Below(lower: Table, t: Table)
  {
    forall k {:trigger Get(t, k)} :: Get(lower, k) <= Get(t, k)
  }

  /** What stays fixed across the passes of one serialization: the automaton,
      its linearized states, the node-data width and the numbering. */
  datatype Config = Config(
    fsa: Fsa,
    lin: seq<nat>,
    nodeDataLength: nat,
    withNumbers: bool,
    numbers: Table)
  {
    ghost predicate Valid()
    {
      fsa.Valid() && forall s | s in lin :: fsa.IsState(s)
    }

    ghost predicate ArcIds(arcs: seq<nat>)
    {
      forall i | 0 <= i < |arcs| :: 0 < arcs[i] < |fsa.nextArc|
    }

    /** The count written as state s's node data. */
    function Number(s: nat): nat
    {
      if withNumbers then Get(numbers, s) else 0
    }

    /** The arcs of the j-th listed state. */
    function StateArcs(j: nat): (r: seq<nat>)
      requires Valid() && j < |lin|
      ensures ArcIds(r)
    {
      fsa.Arcs(lin[j])
    }
  }

  /** The flags, label and target offset one arc is emitted with. */
  datatype ArcRecord = ArcRecord(flags: ArcFlags, arcLabel: byte, targetOffset: nat)

  /**
   * The record emitArcs builds for arc a of the j-th listed state when t is
   * the offset table: a terminal arc has target offset 0; the last arc of a
   * state whose target is the next listed state, and whose looked-up offset
   * is non-zero, takes the target-next form and drops its address.
   */
  function RecordOf(c: Config, j: nat, a: nat, t: Table): (r: ArcRecord)
    requires c.Valid() && j < |c.lin| && 0 < a < |c.fsa.nextArc|
  {
    var f := c.fsa;
    var target := if f.isTerminal[a] then 0 else f.endNode[a];
    var targetOffset := if f.isTerminal[a] then 0 else Get(t, target);
    var last := f.nextArc[a] == 0;
    var targetNext := last && j + 1 < |c.lin| && target == c.lin[j + 1] && targetOffset != 0;
    ArcRecord(ArcFlags(f.isFinal[a], last, targetNext), f.arcLabel[a],
              if targetNext then 0 else targetOffset)
  }

  /** Arc a of the j-th state is the state's last arc and leads to the next
      listed state: the only arcs that may use the target-next form. */
  predicate NextCandidate(c: Config, j: nat, a: nat)
    requires c.Valid() && j < |c.lin| && 0 < a < |c.fsa.nextArc|
  {
    c.fsa.nextArc[a] == 0 && !c.fsa.isTerminal[a] && j + 1 < |c.lin| && c.fsa.endNode[a] == c.lin[j + 1]
  }

  /** Every arc among arcs fits its width. */
  predicate ArcsFit(c: Config, gtl: nat, j: nat, arcs: seq<nat>, t: Table)
    requires c.Valid() && j < |c.lin| && c.ArcIds(arcs)
    decreases |arcs|
  {
    arcs == [] ||
      (var r := RecordOf(c, j, arcs[0], t);
       ArcFits(r.flags, r.targetOffset, gtl) && ArcsFit(c, gtl, j, arcs[1..], t))
  }

  /** The bytes the records of arcs take. */
  function ArcsSize(c: Config, gtl: nat, j: nat, arcs: seq<nat>, t: Table): (r: nat)
    requires c.Valid() && j < |c.lin| && c.ArcIds(arcs)
    decreases |arcs|
  {
    if arcs == [] then 0
    else ArcSize(RecordOf(c, j, arcs[0], t).flags, gtl) + ArcsSize(c, gtl, j, arcs[1..], t)
  }

  /** The bytes written for arcs, up to the first one that does not fit. */
  function ArcsBytes(c: Config, gtl: nat, j: nat, arcs: seq<nat>, t: Table): (r: seq<byte>)
    requires c.Valid() && j < |c.lin| && c.ArcIds(arcs)
    decreases |arcs|
  {
    if arcs == [] then []
    else
      var r := RecordOf(c, j, arcs[0], t);
      if !ArcFits(r.flags, r.targetOffset, gtl) then []
      else EncodeArc(r.flags, r.arcLabel, r.targetOffset, gtl) + ArcsBytes(c, gtl, j, arcs[1..], t)
  }

  /** The bytes the j-th state takes: its node data and its arc records. */
  function StateSize(c: Config, gtl: nat, j: nat, t: Table): nat
    requires c.Valid() && j < |c.lin|
  {
    c.nodeDataLength + ArcsSize(c, gtl, j, c.StateArcs(j), t)
  }

  /** Every arc of the j-th state fits. */
  predicate StateFits(c: Config, gtl: nat, j: nat, t: Table)
    requires c.Valid() && j < |c.lin|
  {
    ArcsFit(c, gtl, j, c.StateArcs(j), t)
  }

  /** What is written for the j-th state: its number, then its arcs up to the
      first that does not fit. */
  function StateBytes(c: Config, gtl: nat, j: nat, t: Table): seq<byte>
    requires c.Valid() && j < |c.lin|
  {
    ToLE(c.Number(c.lin[j]), c.nodeDataLength) + ArcsBytes(c, gtl, j, c.StateArcs(j), t)
  }

  /** The outcome of a pass: whether every arc fitted, the offset table, the
      output, and the offset reached. */
  datatype PassResult = PassResult(ok: bool, table: Table, out: Output, end: nat)

  /**
   * The pass from the j-th listed state on, at byte offset `offset`. A dry
   * pass (the Dry output) first records the state's offset in the table; the
   * real pass leaves the table alone. Then the state's node data and arc
   * records follow; the pass stops, failing, at the first arc that does not
   * fit.
   */
  function PassFrom(c: Config, gtl: nat, j: nat, offset: nat, t: Table, out: Output): (r: PassResult)
    requires c.Valid() && j <= |c.lin|
    decreases |c.lin| - j
  {
    if j == |c.lin| then PassResult(true, t, out, offset)
    else
      var t' := if out.Dry? then t[c.lin[j] := offset] else t;
      var out' := Append(out, StateBytes(c, gtl, j, t'));
      var next := offset + StateSize(c, gtl, j, t');
      if StateFits(c, gtl, j, t') then PassFrom(c, gtl, j + 1, next, t', out')
      else PassResult(false, t', out', next)
  }

  /** Where the arc loop of the j-th state stands with table t: rest are
      the arcs still to write, and the arcs before them all fitted, took
      `bytes` bytes and wrote `done`. */
  ghost predicate ArcsAt(c: Config, gtl: nat, j: nat, t: Table, rest: seq<nat>, bytes: nat, done: seq<byte>)
    requires c.Valid() && j < |c.lin| && c.ArcIds(rest)
  {
    var arcs := c.StateArcs(j);
    && ArcsFit(c, gtl, j, arcs, t) == ArcsFit(c, gtl, j, rest, t)
    && ArcsSize(c, gtl, j, arcs, t) == bytes + ArcsSize(c, gtl, j, rest, t)
    && ArcsBytes(c, gtl, j, arcs, t) == done + ArcsBytes(c, gtl, j, rest, t)
  }

  /** One arc of the arc loop: when the next arc's record fits, the loop
      moves past it having written its bytes; when it does not, the state's
      arcs do not fit and what was written is all there is. */
  lemma ArcAdvance(c: Config, gtl: nat, j: nat, t: Table, rest: seq<nat>, bytes: nat, done: seq<byte>)
    requires c.Valid() && j < |c.lin| && c.ArcIds(rest) && rest != []
    requires ArcsAt(c, gtl, j, t, rest, bytes, done)
    ensures var r := RecordOf(c, j, rest[0], t);
      ArcFits(r.flags, r.targetOffset, gtl) ==>
        ArcsAt(c, gtl, j, t, rest[1..], bytes + ArcSize(r.flags, gtl),
               done + EncodeArc(r.flags, r.arcLabel, r.targetOffset, gtl))
    ensures var r := RecordOf(c, j, rest[0], t);
      !ArcFits(r.flags, r.targetOffset, gtl) ==>
        !ArcsFit(c, gtl, j, c.StateArcs(j), t) && ArcsBytes(c, gtl, j, c.StateArcs(j), t) == done
  {
    var r := RecordOf(c, j, rest[0], t);
    ArcStep(c, gtl, j, rest, t);
    if ArcFits(r.flags, r.targetOffset, gtl) {
      Regroup(done, EncodeArc(r.flags, r.arcLabel, r.targetOffset, gtl), ArcsBytes(c, gtl, j, rest[1..], t));
    }
  }

  lemma AppendTwice(out: Output, a: seq<byte>, b: seq<byte>)
    ensures Append(Append(out, a), b) == Append(out, a + b)
  {
    if out.Stream? {
      assert (out.data + a) + b == out.data + (a + b);
    }
  }

  /** The arc functions at the front of an arc list: the first record
      decides whether the list fits and, when it does, is followed by the
      rest's bytes; when it does not, nothing is written. */
  lemma ArcStep(c: Config, gtl: nat, j: nat, arcs: seq<nat>, t: Table)
    requires c.Valid() && j < |c.lin| && c.ArcIds(arcs) && arcs != []
    ensures var r := RecordOf(c, j, arcs[0], t);
      && ArcsFit(c, gtl, j, arcs, t) == (ArcFits(r.flags, r.targetOffset, gtl) && ArcsFit(c, gtl, j, arcs[1..], t))
      && ArcsSize(c, gtl, j, arcs, t) == ArcSize(r.flags, gtl) + ArcsSize(c, gtl, j, arcs[1..], t)
      && (ArcFits(r.flags, r.targetOffset, gtl) ==>
            ArcsBytes(c, gtl, j, arcs, t) == EncodeArc(r.flags, r.arcLabel, r.targetOffset, gtl) + ArcsBytes(c, gtl, j, arcs[1..], t))
      && (!ArcFits(r.flags, r.targetOffset, gtl) ==> ArcsBytes(c, gtl, j, arcs, t) == [])
  {
  }

  /** Where a pass stands before the j-th state, at byte offset `offset`
      with table t and output out: the rest of the pass ends in `whole`, and
      on the real pass the table is still t0 and every state from the j-th
      on sits at its recorded offset. */
  ghost predicate PassAt(c: Config, gtl: nat, j: nat, offset: nat, t: Table, out: Output, whole: PassResult, t0: Table)
    requires c.Valid() && j <= |c.lin|
  {
    && PassFrom(c, gtl, j, offset, t, out) == whole
    && (out.Stream? ==> t == t0 && ConsistentFrom(c, gtl, j, offset, t))
  }

  /** On the real pass, each state is met at the offset the table holds. */
  lemma AtRecordedOffset(c: Config, gtl: nat, j: nat, offset: nat, t: Table, out: Output, whole: PassResult, t0: Table)
    requires c.Valid() && j < |c.lin| && out.Stream?
    requires PassAt(c, gtl, j, offset, t, out, whole, t0)
    ensures Get(t, c.lin[j]) == offset
  {
  }

  /** One state of a pass. With t' the table once the state's offset is
      recorded (on a dry pass only) and out' the output once its node data
      and arc bytes are written, the pass goes on to the next state if every
      arc fitted, at the offset past the state's bytes, and stops, failing,
      otherwise. */
  lemma StateStep(c: Config, gtl: nat, j: nat, offset: nat, t: Table, out: Output,
                  t': Table, out': Output, next: nat, whole: PassResult, t0: Table)
    requires c.Valid() && j < |c.lin|
    requires PassAt(c, gtl, j, offset, t, out, whole, t0)
    requires t' == if out.Dry? then t[c.lin[j] := offset] else t
    requires out' == Append(Append(out, ToLE(c.Number(c.lin[j]), c.nodeDataLength)), ArcsBytes(c, gtl, j, c.StateArcs(j), t'))
    requires ArcsFit(c, gtl, j, c.StateArcs(j), t') ==> next == offset + c.nodeDataLength + ArcsSize(c, gtl, j, c.StateArcs(j), t')
    ensures ArcsFit(c, gtl, j, c.StateArcs(j), t') ==> PassAt(c, gtl, j + 1, next, t', out', whole, t0)
    ensures !ArcsFit(c, gtl, j, c.StateArcs(j), t') ==> !whole.ok && whole.table == t' && whole.out == out'
  {
    AppendTwice(out, ToLE(c.Number(c.lin[j]), c.nodeDataLength), ArcsBytes(c, gtl, j, c.StateArcs(j), t'));
  }

  /** The no-flags arc of the dummy terminal state. */
  const NoFlags := ArcFlags(false, false, false)

  /** The epsilon state's arc: last, and target-next when there is a root. */
  function EpsilonFlags(c: Config): ArcFlags
  {
    ArcFlags(false, true, c.fsa.root != 0)
  }

  /** The dummy terminal state and the epsilon state. */
  function Prologue(c: Config, gtl: nat): seq<byte>
  {
    ToLE(0, c.nodeDataLength) + EncodeArc(NoFlags, 0, 0, gtl)
    + ToLE(0, c.nodeDataLength) + EncodeArc(EpsilonFlags(c), EpsilonLabel, 0, gtl)
  }

  /** The offset of the first listed state. */
  function Base(c: Config, gtl: nat): nat
  {
    2 * c.nodeDataLength + ArcSize(NoFlags, gtl) + ArcSize(EpsilonFlags(c), gtl)
  }

  /** One whole pass of emitArcs at goto length gtl, starting from table t. */
  function Pass(c: Config, gtl: nat, t: Table, os: Output): (r: PassResult)
    requires c.Valid()
  {
    PassFrom(c, gtl, 0, Base(c, gtl), t, Append(os, Prologue(c, gtl)))
  }

  /** Along the real pass from the j-th state, which reads table t, every
      state reached is at the offset t holds for it (the check emitArcs makes
      on its real pass). */
  ghost predicate ConsistentFrom(c: Config, gtl: nat, j: nat, offset: nat, t: Table)
    requires c.Valid() && j <= |c.lin|
    decreases |c.lin| - j
  {
    j == |c.lin| ||
      (Get(t, c.lin[j]) == offset &&
       (StateFits(c, gtl, j, t) ==> ConsistentFrom(c, gtl, j + 1, offset + StateSize(c, gtl, j, t), t)))
  }

  // ---------------------------------------------------------------------
  // The tight layout: every target-next candidate takes the short form.

  /** The bytes of arcs when every candidate takes the target-next form. */
  function TightArcsSize(c: Config, gtl: nat, j: nat, arcs: seq<nat>): nat
    requires c.Valid() && j < |c.lin| && c.ArcIds(arcs)
    decreases |arcs|
  {
    if arcs == [] then 0
    else (if NextCandidate(c, j, arcs[0]) then 2 else 1 + gtl) + TightArcsSize(c, gtl, j, arcs[1..])
  }

  /** The bytes of the j-th state in the tight layout. */
  function TightSize(c: Config, gtl: nat, j: nat): nat
    requires c.Valid() && j < |c.lin|
  {
    c.nodeDataLength + TightArcsSize(c, gtl, j, c.StateArcs(j))
  }

  /** The offset of the i-th listed state in the tight layout. */
  function TightStart(c: Config, gtl: nat, i: nat): (r: nat)
    requires c.Valid() && i <= |c.lin|
    ensures r >= Base(c, gtl) > 0
  {
    if i == 0 then Base(c, gtl)
    else TightStart(c, gtl, i - 1) + TightSize(c, gtl, i - 1)
  }

  /** How emitArcs sets each flag of an arc record: final as the arc is,
      last exactly on the state's last arc, target-next exactly on a
      candidate whose looked-up offset is non-zero (which then carries no
      address); a terminal arc carries address 0. */
  lemma RecordFlags(c: Config, j: nat, a: nat, t: Table)
    requires c.Valid() && j < |c.lin| && 0 < a < |c.fsa.nextArc|
    ensures var r := RecordOf(c, j, a, t);
      && r.arcLabel == c.fsa.arcLabel[a]
      && (r.flags.final <==> c.fsa.isFinal[a])
      && (r.flags.last <==> c.fsa.nextArc[a] == 0)
      && (r.flags.targetNext <==> NextCandidate(c, j, a) && Get(t, c.lin[j + 1]) != 0)
      && (r.flags.targetNext ==> r.targetOffset == 0)
      && (!r.flags.targetNext && !c.fsa.isTerminal[a] ==> r.targetOffset == Get(t, c.fsa.endNode[a]))
      && (c.fsa.isTerminal[a] ==> r.targetOffset == 0)
  {
  }

  /** A pass takes at least the tight layout's bytes for a state's arcs, and
      exactly those when the next state's looked-up offset is non-zero. */
  lemma {:induction false} ArcsSizeVsTight(c: Config, gtl: nat, j: nat, arcs: seq<nat>, t: Table)
    requires c.Valid() && j < |c.lin| && c.ArcIds(arcs) && gtl >= 1
    ensures ArcsSize(c, gtl, j, arcs, t) >= TightArcsSize(c, gtl, j, arcs)
    ensures (j + 1 < |c.lin| ==> Get(t, c.lin[j + 1]) != 0) ==>
            ArcsSize(c, gtl, j, arcs, t) == TightArcsSize(c, gtl, j, arcs)
  {
    if arcs != [] {
      RecordFlags(c, j, arcs[0], t);
      ArcsSizeVsTight(c, gtl, j, arcs[1..], t);
    }
  }

  /** Lowering looked-up offsets, while keeping the next state's non-zero,
      keeps every arc fitting and every size the same. */
  lemma {:induction false} ArcsFitMono(c: Config, gtl: nat, j: nat, arcs: seq<nat>, t: Table, lower: Table)
    requires c.Valid() && j < |c.lin| && c.ArcIds(arcs)
    requires Below(lower, t)
    requires j + 1 < |c.lin| ==> Get(lower, c.lin[j + 1]) != 0
    requires ArcsFit(c, gtl, j, arcs, t)
    ensures ArcsFit(c, gtl, j, arcs, lower)
  {
    if arcs != [] {
      var a := arcs[0];
      RecordFlags(c, j, a, t);
      RecordFlags(c, j, a, lower);
      if !c.fsa.isTerminal[a] {
        assert Get(lower, c.fsa.endNode[a]) <= Get(t, c.fsa.endNode[a]);
      }
      ArcsFitMono(c, gtl, j, arcs[1..], t, lower);
    }
  }

  /** The state-level form of ArcsSizeVsTight. */
  lemma StateSizeVsTight(c: Config, gtl: nat, j: nat, t: Table)
    requires c.Valid() && j < |c.lin| && gtl >= 1
    ensures StateSize(c, gtl, j, t) >= TightSize(c, gtl, j)
    ensures (j + 1 < |c.lin| ==> Get(t, c.lin[j + 1]) != 0) ==> StateSize(c, gtl, j, t) == TightSize(c, gtl, j)
  {
    ArcsSizeVsTight(c, gtl, j, c.StateArcs(j), t);
  }

  /** The state-level form of ArcsFitMono. */
  lemma StateFitsMono(c: Config, gtl: nat, j: nat, t: Table, lower: Table)
    requires c.Valid() && j < |c.lin|
    requires Below(lower, t)
    requires j + 1 < |c.lin| ==> Get(lower, c.lin[j + 1]) != 0
    requires StateFits(c, gtl, j, t)
    ensures StateFits(c, gtl, j, lower)
  {
    ArcsFitMono(c, gtl, j, c.StateArcs(j), t, lower);
  }

  /** A dry pass from the j-th state changes the table only at the states it
      lists from j on; the real pass does not change it. */
  lemma {:induction false} PassFrame(c: Config, gtl: nat, j: nat, offset: nat, t: Table, out: Output)
    requires c.Valid() && j <= |c.lin|
    ensures var r := PassFrom(c, gtl, j, offset, t, out);
      && (forall k | k !in c.lin[j..] :: Get(r.table, k) == Get(t, k))
      && (out.Stream? ==> r.table == t)
      && (r.out.Dry? <==> out.Dry?)
    decreases |c.lin| - j
  {
    if j < |c.lin| {
      var t' := if out.Dry? then t[c.lin[j] := offset] else t;
      var out' := Append(out, StateBytes(c, gtl, j, t'));
      var next := offset + StateSize(c, gtl, j, t');
      PassFrame(c, gtl, j + 1, next, t', out');
      var r := PassFrom(c, gtl, j, offset, t, out);
      if StateFits(c, gtl, j, t') {
        assert r == PassFrom(c, gtl, j + 1, next, t', out');
      } else {
        assert r == PassResult(false, t', out', next);
      }
      forall k | k !in c.lin[j..]
        ensures Get(r.table, k) == Get(t, k)
      {
        assert k != c.lin[j] && k !in c.lin[j + 1..];
      }
    }
  }

  /** A whole pass writes to a stream exactly when it was given one, and the
      real pass leaves the table alone. */
  lemma PassKeepsStream(c: Config, gtl: nat, t: Table, os: Output)
    requires c.Valid()
    ensures Pass(c, gtl, t, os).out.Stream? <==> os.Stream?
    ensures os.Stream? ==> Pass(c, gtl, t, os).table == t
  {
    PassFrame(c, gtl, 0, Base(c, gtl), t, Append(os, Prologue(c, gtl)));
  }

  /** The dummy terminal state and the epsilon state take exactly the bytes
      before the first listed state: 2 * nodeDataLength + gtl + 3 when the
      root is non-zero (the epsilon arc then takes the target-next form), and
      2 * nodeDataLength + 2 * gtl + 2 otherwise. */
  lemma PrologueLength(c: Config, gtl: nat)
    requires gtl >= 1
    ensures |Prologue(c, gtl)| == Base(c, gtl)
    ensures c.fsa.root != 0 ==> Base(c, gtl) == 2 * c.nodeDataLength + gtl + 3
    ensures c.fsa.root == 0 ==> Base(c, gtl) == 2 * c.nodeDataLength + 2 * gtl + 2
  {
  }

  /** The records of arcs that all fit take exactly their computed size. */
  lemma {:induction false} ArcsBytesLength(c: Config, gtl: nat, j: nat, arcs: seq<nat>, t: Table)
    requires c.Valid() && j < |c.lin| && c.ArcIds(arcs)
    requires ArcsFit(c, gtl, j, arcs, t)
    ensures |ArcsBytes(c, gtl, j, arcs, t)| == ArcsSize(c, gtl, j, arcs, t)
    decreases |arcs|
  {
    if arcs != [] {
      ArcsBytesLength(c, gtl, j, arcs[1..], t);
    }
  }

  /** One state of a successful real pass: its arcs fit, it writes its
      bytes, and the pass goes on from the next state. */
  lemma RealUnfold(c: Config, gtl: nat, j: nat, offset: nat, t: Table, out: seq<byte>)
    requires c.Valid() && j < |c.lin|
    requires PassFrom(c, gtl, j, offset, t, Stream(out)).ok
    ensures StateFits(c, gtl, j, t)
    ensures |StateBytes(c, gtl, j, t)| == StateSize(c, gtl, j, t)
    ensures PassFrom(c, gtl, j, offset, t, Stream(out))
         == PassFrom(c, gtl, j + 1, offset + StateSize(c, gtl, j, t), t, Stream(out + StateBytes(c, gtl, j, t)))
  {
    ArcsBytesLength(c, gtl, j, c.StateArcs(j), t);
  }

  /** A successful real pass from the j-th state writes exactly as many bytes
      as its running offset advances: each recorded offset is the count of
      bytes before the state. */
  lemma {:induction false} WrittenMatchesOffsets(c: Config, gtl: nat, j: nat, offset: nat, t: Table, out: seq<byte>)
    requires c.Valid() && j <= |c.lin|
    requires PassFrom(c, gtl, j, offset, t, Stream(out)).ok
    ensures var r := PassFrom(c, gtl, j, offset, t, Stream(out));
      r.out.Stream? && |r.out.data| == |out| + (r.end - offset) && r.end >= offset
    decreases |c.lin| - j
  {
    if j < |c.lin| {
      RealUnfold(c, gtl, j, offset, t, out);
      var bytes := StateBytes(c, gtl, j, t);
      WrittenMatchesOffsets(c, gtl, j + 1, offset + StateSize(c, gtl, j, t), t, out + bytes);
    }
  }

  /** A successful real pass writes the prologue and the states: as many
      bytes as the offset it ends at. */
  lemma RealPassLength(c: Config, gtl: nat, t: Table, os: seq<byte>)
    requires c.Valid() && gtl >= 1
    requires Pass(c, gtl, t, Stream(os)).ok
    ensures Pass(c, gtl, t, Stream(os)).out.Stream?
    ensures |Pass(c, gtl, t, Stream(os)).out.data| == |os| + Pass(c, gtl, t, Stream(os)).end
  {
    PrologueLength(c, gtl);
    WrittenMatchesOffsets(c, gtl, 0, Base(c, gtl), t, os + Prologue(c, gtl));
  }

  /** A dry pass from the j-th state records that state at the running
      offset it has reached. */
  lemma RecordsOwnOffset(c: Config, gtl: nat, j: nat, offset: nat, t: Table)
    requires c.Valid() && Distinct(c.lin) && j < |c.lin|
    ensures Get(PassFrom(c, gtl, j, offset, t, Dry).table, c.lin[j]) == offset
  {
    var t' := t[c.lin[j] := offset];
    var next := offset + StateSize(c, gtl, j, t');
    KeepsEarlier(c, gtl, j, next, t');
    var r := PassFrom(c, gtl, j, offset, t, Dry);
    if StateFits(c, gtl, j, t') {
      assert r == PassFrom(c, gtl, j + 1, next, t', Dry);
    } else {
      assert r == PassResult(false, t', Dry, next);
    }
  }

  /** The first listed state is recorded by a dry pass right after the
      prologue. */
  lemma FirstStateOffset(c: Config, gtl: nat, t: Table)
    requires c.Valid() && Distinct(c.lin) && |c.lin| > 0
    ensures Get(Pass(c, gtl, t, Dry).table, c.lin[0]) == Base(c, gtl)
  {
    RecordsOwnOffset(c, gtl, 0, Base(c, gtl), t);
    assert Append(Dry, Prologue(c, gtl)) == Dry;
  }

  /** The dry pass from the state after the j-th leaves the j-th state's
      offset alone. */
  lemma KeepsEarlier(c: Config, gtl: nat, j: nat, offset: nat, t: Table)
    requires c.Valid() && Distinct(c.lin) && j < |c.lin|
    ensures Get(PassFrom(c, gtl, j + 1, offset, t, Dry).table, c.lin[j]) == Get(t, c.lin[j])
  {
    PassFrame(c, gtl, j + 1, offset, t, Dry);
    assert c.lin[j] !in c.lin[j + 1..];
  }

  /** A successful dry pass starting no earlier than the tight layout records
      every state from j on no earlier than the tight layout places it. */
  lemma {:induction false} DryPassAtLeastTight(c: Config, gtl: nat, j: nat, offset: nat, t: Table)
    requires c.Valid() && Distinct(c.lin) && gtl >= 1 && j <= |c.lin|
    requires offset >= TightStart(c, gtl, j)
    requires PassFrom(c, gtl, j, offset, t, Dry).ok
    ensures forall i {:trigger Get(PassFrom(c, gtl, j, offset, t, Dry).table, c.lin[i])} | j <= i < |c.lin| ::
      Get(PassFrom(c, gtl, j, offset, t, Dry).table, c.lin[i]) >= TightStart(c, gtl, i)
    decreases |c.lin| - j
  {
    if j < |c.lin| {
      var t' := t[c.lin[j] := offset];
      StateSizeVsTight(c, gtl, j, t');
      var next := offset + StateSize(c, gtl, j, t');
      var whole := PassFrom(c, gtl, j, offset, t, Dry);
      var r := PassFrom(c, gtl, j + 1, next, t', Dry);
      assert StateFits(c, gtl, j, t');
      assert whole == r;
      assert next >= TightStart(c, gtl, j + 1);
      DryPassAtLeastTight(c, gtl, j + 1, next, t');
      KeepsEarlier(c, gtl, j, next, t');
      forall i | j <= i < |c.lin|
        ensures Get(whole.table, c.lin[i]) >= TightStart(c, gtl, i)
      {
        if i == j {
          assert Get(r.table, c.lin[j]) == offset;
        }
      }
    }
  }

  /** One state of a dry pass at the tight layout, over a table in which
      every later state has a non-zero offset: the state takes its tight
      size, and the later states keep non-zero offsets. */
  lemma TightStep(c: Config, gtl: nat, j: nat, offset: nat, t: Table)
    requires c.Valid() && Distinct(c.lin) && gtl >= 1 && j < |c.lin|
    requires offset == TightStart(c, gtl, j)
    requires forall i | j < i < |c.lin| :: Get(t, c.lin[i]) > 0
    ensures forall i | j + 1 < i < |c.lin| :: Get(t[c.lin[j] := offset], c.lin[i]) > 0
    ensures offset + StateSize(c, gtl, j, t[c.lin[j] := offset]) == TightStart(c, gtl, j + 1)
  {
    var t' := t[c.lin[j] := offset];
    assert forall i | j < i < |c.lin| :: Get(t', c.lin[i]) == Get(t, c.lin[i]);
    StateSizeVsTight(c, gtl, j, t');
  }

  /** A successful dry pass that starts at the tight layout, from a table in
      which every later state already has a non-zero offset, records exactly
      the tight layout. */
  lemma {:induction false} DryPassIsTight(c: Config, gtl: nat, j: nat, offset: nat, t: Table)
    requires c.Valid() && Distinct(c.lin) && gtl >= 1 && j <= |c.lin|
    requires offset == TightStart(c, gtl, j)
    requires forall i | j < i < |c.lin| :: Get(t, c.lin[i]) > 0
    requires PassFrom(c, gtl, j, offset, t, Dry).ok
    ensures forall i {:trigger Get(PassFrom(c, gtl, j, offset, t, Dry).table, c.lin[i])} | j <= i < |c.lin| ::
      Get(PassFrom(c, gtl, j, offset, t, Dry).table, c.lin[i]) == TightStart(c, gtl, i)
    decreases |c.lin| - j
  {
    if j < |c.lin| {
      var t' := t[c.lin[j] := offset];
      TightStep(c, gtl, j, offset, t);
      var next := offset + StateSize(c, gtl, j, t');
      var whole := PassFrom(c, gtl, j, offset, t, Dry);
      var r := PassFrom(c, gtl, j + 1, next, t', Dry);
      assert StateFits(c, gtl, j, t');
      assert whole == r;
      DryPassIsTight(c, gtl, j + 1, next, t');
      KeepsEarlier(c, gtl, j, next, t');
      forall i | j <= i < |c.lin|
        ensures Get(whole.table, c.lin[i]) == TightStart(c, gtl, i)
      {
        if i == j {
          assert Get(r.table, c.lin[j]) == offset;
        }
      }
    }
  }

  /** One state of the real pass over the tight table, against the dry pass
      over a table with offsets no lower that has just recorded the state:
      the arcs fit, and the state takes its tight size in both. */
  lemma RealStep(c: Config, gtl: nat, j: nat, offset: nat, t: Table, tight: Table)
    requires c.Valid() && gtl >= 1 && j < |c.lin|
    requires offset == TightStart(c, gtl, j)
    requires forall i {:trigger Get(tight, c.lin[i])} | 0 <= i < |c.lin| :: Get(tight, c.lin[i]) == TightStart(c, gtl, i)
    requires Below(tight, t)
    requires StateFits(c, gtl, j, t[c.lin[j] := offset])
    ensures Below(tight, t[c.lin[j] := offset])
    ensures StateFits(c, gtl, j, tight)
    ensures StateSize(c, gtl, j, tight) == StateSize(c, gtl, j, t[c.lin[j] := offset])
    ensures j + 1 <= |c.lin| ==> offset + StateSize(c, gtl, j, tight) == TightStart(c, gtl, j + 1)
  {
    var t' := t[c.lin[j] := offset];
    forall k
      ensures Get(tight, k) <= Get(t', k)
    {
      if k == c.lin[j] {
        assert Get(tight, c.lin[j]) == offset;
      } else {
        assert Get(t', k) == Get(t, k);
      }
    }
    assert j + 1 < |c.lin| ==> Get(tight, c.lin[j + 1]) == TightStart(c, gtl, j + 1);
    StateFitsMono(c, gtl, j, t', tight);
    StateSizeVsTight(c, gtl, j, t');
    StateSizeVsTight(c, gtl, j, tight);
  }

  /** The real pass from the j-th state over a table holding the tight layout
      succeeds wherever a dry pass over a table with offsets no lower did, and
      meets every state at its recorded offset. */
  lemma {:induction false} RealPassFollowsDry(c: Config, gtl: nat, j: nat, offset: nat, t: Table, tight: Table, out: seq<byte>)
    requires c.Valid() && gtl >= 1 && j <= |c.lin|
    requires offset == TightStart(c, gtl, j)
    requires forall i {:trigger Get(tight, c.lin[i])} | 0 <= i < |c.lin| :: Get(tight, c.lin[i]) == TightStart(c, gtl, i)
    requires Below(tight, t)
    requires PassFrom(c, gtl, j, offset, t, Dry).ok
    ensures PassFrom(c, gtl, j, offset, tight, Stream(out)).ok
    ensures ConsistentFrom(c, gtl, j, offset, tight)
    decreases |c.lin| - j
  {
    if j < |c.lin| {
      var t' := t[c.lin[j] := offset];
      RealStep(c, gtl, j, offset, t, tight);
      var next := offset + StateSize(c, gtl, j, tight);
      var out' := out + StateBytes(c, gtl, j, tight);
      RealPassFollowsDry(c, gtl, j + 1, next, t', tight, out');
      assert Append(Stream(out), StateBytes(c, gtl, j, tight)) == Stream(out');
      assert PassFrom(c, gtl, j, offset, tight, Stream(out)) == PassFrom(c, gtl, j + 1, next, tight, Stream(out'));
    }
  }

  /**
   * The goto length accepted after two successful dry passes is final: with
   * the table the second pass leaves, the real pass succeeds (no arc
   * overflows) and finds every state at the offset recorded for it, and that
   * offset is the state's place in the tight layout.
   */
  lemma AcceptedLayoutIsConsistent(c: Config, gtl: nat, t0: Table, os: seq<byte>)
    requires c.Valid() && Distinct(c.lin) && gtl >= 1
    requires Pass(c, gtl, t0, Dry).ok
    requires Pass(c, gtl, Pass(c, gtl, t0, Dry).table, Dry).ok
    ensures var t2 := Pass(c, gtl, Pass(c, gtl, t0, Dry).table, Dry).table;
      && Pass(c, gtl, t2, Stream(os)).ok
      && ConsistentFrom(c, gtl, 0, Base(c, gtl), t2)
      && (forall i {:trigger Get(t2, c.lin[i])} | 0 <= i < |c.lin| :: Get(t2, c.lin[i]) == TightStart(c, gtl, i))
  {
    var t1 := Pass(c, gtl, t0, Dry).table;
    var t2 := Pass(c, gtl, t1, Dry).table;
    DryPassAtLeastTight(c, gtl, 0, Base(c, gtl), t0);
    DryPassIsTight(c, gtl, 0, Base(c, gtl), t1);
    PassFrame(c, gtl, 0, Base(c, gtl), t1, Dry);
    assert c.lin[0..] == c.lin;
    forall k
      ensures Get(t2, k) <= Get(t1, k)
    {
      if k in c.lin {
        var i :| 0 <= i < |c.lin| && c.lin[i] == k;
      }
    }
    RealPassFollowsDry(c, gtl, 0, Base(c, gtl), t1, t2, os + Prologue(c, gtl));
  }
}
