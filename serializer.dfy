// The serializer object (FSA5Serializer): its settings, the offset table and
// the right-language counts it keeps in fields, one pass of emitArcs over the
// linearized states, and serialize, which searches for the smallest goto
// length at which two dry passes succeed and then writes the header and the
// automaton.

module Serializer {
  import opened LittleEndian
  import opened Automaton
  import opened Linearizer
  import opened Codec
  import opened Layout
  import opened Resolver

  class FSA5Serializer {
    /** The filler and annotation-separator bytes written into the header. */
    var fillerByte: byte
    var annotationByte: byte
    /** Whether each state's node data carries its right-language count. */
    var withNumbers: bool
    /** The offset of each state, as the last dry pass recorded it. */
    var offsets: Table
    /** The right-language count of each state, once serialize has computed
        them with numbers on. */
    var numbers: Table

    /** A fresh serializer with the format's default filler and annotation
        bytes, without numbers and with empty tables. */
    constructor(defaultFiller: byte, defaultAnnotation: byte)
      ensures fillerByte == defaultFiller && annotationByte == defaultAnnotation
      ensures !withNumbers && offsets == map[] && numbers == map[]
    {
      fillerByte := defaultFiller;
      annotationByte := defaultAnnotation;
      withNumbers := false;
      offsets := map[];
      numbers := map[];
    }

    method WithNumbers() returns (r: FSA5Serializer)
      modifies this`withNumbers
      ensures r == this && withNumbers
    {
      withNumbers := true;
      r := this;
    }

    method WithFiller(filler: byte) returns (r: FSA5Serializer)
      modifies this`fillerByte
      ensures r == this && fillerByte == filler
    {
      fillerByte := filler;
      r := this;
    }

    method WithAnnotationSeparator(annotationSeparator: byte) returns (r: FSA5Serializer)
      modifies this`annotationByte
      ensures r == this && annotationByte == annotationSeparator
    {
      annotationByte := annotationSeparator;
      r := this;
    }

    /**
     * Serializes fsa after the bytes already in os: the states are
     * linearized; with numbers on, the right-language counts (given here as
     * rightLanguage) become the node data, as wide as the root's count
     * needs; the goto length grows from one until two dry passes in a row
     * succeed; then the header (its version part is `header`), the filler
     * and annotation bytes, the packed node-data and goto lengths, and the
     * automaton are written. The ghost results name the linearization, the
     * node-data width, the goto length found and the table each round of the
     * search started from.
     */
    method Serialize(fsa: Fsa, os: seq<byte>, header: seq<byte>, rightLanguage: Table)
      returns (out: seq<byte>, ghost lin: seq<nat>, ghost nodeDataLength: nat, ghost gtl: nat, ghost tried: seq<Table>)
      requires fsa.Valid()
      modifies this`offsets, this`numbers
      ensures Linearization(fsa, lin)
      ensures withNumbers ==> numbers == rightLanguage
      ensures !withNumbers ==> numbers == old(numbers) && nodeDataLength == 0
      ensures withNumbers ==> NodeDataWidth(Get(numbers, fsa.root), nodeDataLength)
      ensures var c := Config(fsa, lin, nodeDataLength, withNumbers, numbers);
        && c.Valid() && gtl >= 1 && |tried| == gtl && tried[0] == old(offsets)
        && Rejected(c, tried)
        && TryWidth(c, gtl, tried[gtl - 1]).accepted && offsets == TryWidth(c, gtl, tried[gtl - 1]).table
      ensures var c := Config(fsa, lin, nodeDataLength, withNumbers, numbers);
        var final := Pass(c, gtl, offsets, Stream(os + header + [fillerByte, annotationByte, HeaderByte(nodeDataLength, gtl)]));
        final.ok && final.out == Stream(out) && |out| == |os| + |header| + 3 + final.end
      ensures var c := Config(fsa, lin, nodeDataLength, withNumbers, numbers);
        && ConsistentFrom(c, gtl, 0, Base(c, gtl), offsets)
        && (forall i | 0 <= i < |lin| :: Get(offsets, lin[i]) == TightStart(c, gtl, i))
    {
      var linearized := Linearize(fsa);
      lin := linearized;
      var ndl: nat := 0;
      if withNumbers {
        numbers := rightLanguage;
        ndl := NodeDataLength(Get(numbers, fsa.root));
      }
      nodeDataLength := ndl;
      ghost var c := Config(fsa, linearized, ndl, withNumbers, numbers);
      var g: nat;
      g, tried := FindGotoLength(fsa, linearized, ndl, c);
      gtl := g;

      var prefix := os + header + [fillerByte, annotationByte, HeaderByte(ndl, g)];
      AcceptedIsFinal(c, g, tried[g - 1], prefix);
      var gtlUnchanged: bool;
      var written: Output;
      PassKeepsStream(c, g, offsets, Stream(prefix));
      gtlUnchanged, written := EmitArcs(fsa, Stream(prefix), linearized, g, ndl);
      assert gtlUnchanged;
      RealPassLength(c, g, offsets, prefix);
      out := written.data;
    }

    /**
     * The search for the goto length: starting from one byte, one more
     * byte each round, until a dry pass succeeds and a second dry pass over
     * the offsets it recorded succeeds too. Always ends (Resolver proves a
     * width that is wide enough for every offset). The ghost result lists
     * the table each round started from.
     */
    method FindGotoLength(fsa: Fsa, lin: seq<nat>, nodeDataLength: nat, ghost c: Config)
      returns (gtl: nat, ghost tried: seq<Table>)
      requires c == Config(fsa, lin, nodeDataLength, withNumbers, numbers) && c.Valid()
      modifies this`offsets
      ensures gtl >= 1 && |tried| == gtl && tried[0] == old(offsets)
      ensures Rejected(c, tried)
      ensures TryWidth(c, gtl, tried[gtl - 1]).accepted && offsets == TryWidth(c, gtl, tried[gtl - 1]).table
    {
      ghost var m0 := MaxValue(offsets);
      gtl := 1;
      tried := [offsets];
      while true
        invariant 1 <= gtl <= WideWidth(c, m0)
        invariant Bounded(offsets, SearchCap(c, m0))
        invariant |tried| == gtl && tried[0] == old(offsets) && tried[gtl - 1] == offsets
        invariant Rejected(c, tried)
        decreases WideWidth(c, m0) - gtl
      {
        SearchEnds(c, gtl, offsets, m0);
        var ok: bool;
        var ignored: Output;
        ok, ignored := EmitArcs(fsa, Dry, lin, gtl, nodeDataLength);
        if ok {
          ok, ignored := EmitArcs(fsa, Dry, lin, gtl, nodeDataLength);
          if ok {
            return;
          }
        }
        assert RoundRejected(c, gtl, tried[gtl - 1], offsets);
        RejectedExtend(c, tried, offsets);
        tried := tried + [offsets];
        gtl := gtl + 1;
      }
    }

    /**
     * One pass of emitArcs at goto length gtl: the dummy terminal state, the
     * epsilon state, then every listed state's node data and arcs. With the
     * Dry output the pass records each state's offset in the table; with a
     * stream it writes the bytes, and then every state must sit at the
     * offset the table holds for it. Stops, reporting failure, at the first
     * arc whose address does not fit in gtl bytes.
     */
    method EmitArcs(fsa: Fsa, os: Output, lin: seq<nat>, gtl: nat, nodeDataLength: nat)
      returns (ok: bool, os': Output)
      requires Config(fsa, lin, nodeDataLength, withNumbers, numbers).Valid() && gtl >= 1
      requires os.Stream? ==>
        var c := Config(fsa, lin, nodeDataLength, withNumbers, numbers);
        ConsistentFrom(c, gtl, 0, Base(c, gtl), offsets)
      modifies this`offsets
      ensures var r := Pass(Config(fsa, lin, nodeDataLength, withNumbers, numbers), gtl, old(offsets), os);
        ok == r.ok && os' == r.out && offsets == r.table
    {
      ghost var c := Config(fsa, lin, nodeDataLength, withNumbers, numbers);
      ghost var whole := Pass(c, gtl, offsets, os);
      var out: Output;
      var offset: nat;
      offset, out := EmitPrologue(fsa, os, gtl, nodeDataLength, c);
      var j := 0;
      while j < |lin|
        invariant 0 <= j <= |lin|
        invariant PassAt(c, gtl, j, offset, offsets, out, whole, old(offsets))
      {
        var fits: bool;
        fits, offset, out := EmitState(fsa, out, lin, j, gtl, nodeDataLength, offset, c, whole, old(offsets));
        if !fits {
          // The goto length is too small: stop at once.
          return false, out;
        }
        j := j + 1;
      }
      ok, os' := true, out;
    }

    /**
     * The body of emitArcs' state loop for the j-th listed state: a dry pass
     * records the state's offset (the real pass finds it already there),
     * then the state's node data and arcs are written. Reports whether every
     * arc fitted, and the offset of the next state.
     */
    method EmitState(fsa: Fsa, os: Output, lin: seq<nat>, j: nat, gtl: nat, nodeDataLength: nat, offset: nat,
                     ghost c: Config, ghost whole: PassResult, ghost t0: Table)
      returns (fits: bool, next: nat, os': Output)
      requires c == Config(fsa, lin, nodeDataLength, withNumbers, numbers)
      requires c.Valid() && j < |lin|
      requires PassAt(c, gtl, j, offset, offsets, os, whole, t0)
      modifies this`offsets
      ensures fits ==> PassAt(c, gtl, j + 1, next, offsets, os', whole, t0)
      ensures !fits ==> !whole.ok && whole.table == offsets && whole.out == os'
    {
      var s := lin[j];
      if os.Dry? {
        offsets := offsets[s := offset];
      } else {
        AtRecordedOffset(c, gtl, j, offset, offsets, os, whole, t0);
        assert Get(offsets, s) == offset;
      }
      var number := if withNumbers then Get(numbers, s) else 0;
      var n: nat;
      var nodeOut: Output;
      n, nodeOut := EmitNodeData(os, nodeDataLength, number);
      var size: nat;
      fits, size, os' := EmitStateArcs(fsa, nodeOut, lin, j, gtl, nodeDataLength, c);
      next := offset + n + size;
      assert offsets == if os.Dry? then old(offsets)[s := offset] else old(offsets);
      assert nodeOut == Append(os, ToLE(c.Number(s), nodeDataLength));
      assert os' == Append(nodeOut, ArcsBytes(c, gtl, j, c.StateArcs(j), offsets));
      StateStep(c, gtl, j, offset, old(offsets), os, offsets, os', next, whole, t0);
    }

    /** The start of every pass: the dummy terminal state (node data and
        one arc with no flags) and the epsilon state, whose single arc is
        last and, when there is a root, target-next. Returns the offset of
        the first listed state. */
    method EmitPrologue(fsa: Fsa, os: Output, gtl: nat, nodeDataLength: nat, ghost c: Config)
      returns (offset: nat, os': Output)
      requires c.fsa == fsa && c.nodeDataLength == nodeDataLength && gtl >= 1
      ensures offset == Base(c, gtl) && os' == Append(os, Prologue(c, gtl))
    {
      var n: nat;
      var bytes: int;
      os' := os;
      offset := 0;

      // The dummy terminal state.
      n, os' := EmitNodeData(os', nodeDataLength, 0);
      offset := offset + n;
      bytes, os' := EmitArc(os', gtl, NoFlags, 0, 0);
      offset := offset + bytes;

      // The epsilon state.
      n, os' := EmitNodeData(os', nodeDataLength, 0);
      offset := offset + n;
      var epsilon := if fsa.root != 0 then ArcFlags(false, true, true) else ArcFlags(false, true, false);
      assert Pow256(gtl) >= 256 by { PowMono(1, gtl); }
      bytes, os' := EmitArc(os', gtl, epsilon, EpsilonLabel, 0);
      offset := offset + bytes;
      AppendTwice(os, ToLE(0, nodeDataLength), EncodeArc(NoFlags, 0, 0, gtl));
      AppendTwice(os, ToLE(0, nodeDataLength) + EncodeArc(NoFlags, 0, 0, gtl), ToLE(0, nodeDataLength));
      AppendTwice(os, ToLE(0, nodeDataLength) + EncodeArc(NoFlags, 0, 0, gtl) + ToLE(0, nodeDataLength),
                  EncodeArc(epsilon, EpsilonLabel, 0, gtl));
    }

    /** The arc loop of emitArcs for the j-th listed state: writes each arc's
        record as the offset table gives its target, and stops at the first
        arc whose address does not fit in gtl bytes. */
    method EmitStateArcs(fsa: Fsa, os: Output, lin: seq<nat>, j: nat, gtl: nat, nodeDataLength: nat, ghost c: Config)
      returns (ok: bool, bytes: nat, os': Output)
      requires c == Config(fsa, lin, nodeDataLength, withNumbers, numbers)
      requires c.Valid() && j < |lin|
      ensures var arcs := c.StateArcs(j);
        && ok == ArcsFit(c, gtl, j, arcs, offsets)
        && (ok ==> bytes == ArcsSize(c, gtl, j, arcs, offsets))
        && os' == Append(os, ArcsBytes(c, gtl, j, arcs, offsets))
    {
      ghost var rest := c.StateArcs(j);
      ghost var done: seq<byte> := [];
      os' := os;
      bytes := 0;
      assert lin[j] in lin;
      var arc := fsa.firstArc[lin[j]];
      while arc != 0
        invariant arc < |fsa.nextArc| && rest == fsa.ArcsFrom(arc)
        invariant ArcsAt(c, gtl, j, offsets, rest, bytes, done)
        invariant os' == Append(os, done)
        decreases if arc == 0 then 0 else |fsa.nextArc| - arc
      {
        assert rest[0] == arc && rest[1..] == fsa.ArcsFrom(fsa.nextArc[arc]);
        var n: int;
        n, os' := EmitArcRecord(fsa, os', lin, j, arc, gtl, nodeDataLength, c);
        ArcAdvance(c, gtl, j, offsets, rest, bytes, done);
        if n < 0 {
          // The goto length is too small: stop at once.
          return false, bytes, os';
        }
        ghost var r := RecordOf(c, j, arc, offsets);
        ghost var e := EncodeArc(r.flags, r.arcLabel, r.targetOffset, gtl);
        AppendTwice(os, done, e);
        done := done + e;
        bytes := bytes + n;
        rest := rest[1..];
        arc := fsa.nextArc[arc];
      }
      ok := true;
    }

    /** One arc of the arc loop: its target's offset from the table (0 for
        a terminal arc), its flags, and the target-next form for the last
        arc when it leads to the next listed state at a non-zero offset;
        then the record is written. */
    method EmitArcRecord(fsa: Fsa, os: Output, lin: seq<nat>, j: nat, arc: nat, gtl: nat, nodeDataLength: nat, ghost c: Config)
      returns (n: int, os': Output)
      requires c == Config(fsa, lin, nodeDataLength, withNumbers, numbers)
      requires c.Valid() && j < |lin| && 0 < arc < |fsa.nextArc|
      ensures var r := RecordOf(c, j, arc, offsets);
        && (n == -1 <==> !ArcFits(r.flags, r.targetOffset, gtl))
        && (n != -1 ==> n == ArcSize(r.flags, gtl) && os' == Append(os, EncodeArc(r.flags, r.arcLabel, r.targetOffset, gtl)))
        && (n == -1 ==> os' == os)
    {
      var targetOffset: nat;
      var target: nat;
      if fsa.isTerminal[arc] {
        targetOffset := 0;
        target := 0;
      } else {
        target := fsa.endNode[arc];
        targetOffset := Get(offsets, target);
      }
      var last := false;
      var targetNext := false;
      if fsa.nextArc[arc] == 0 {
        last := true;
        if j + 1 < |lin| && target == lin[j + 1] && targetOffset != 0 {
          targetNext := true;
          targetOffset := 0;
        }
      }
      var flags := ArcFlags(fsa.isFinal[arc], last, targetNext);
      assert RecordOf(c, j, arc, offsets) == ArcRecord(flags, fsa.arcLabel[arc], targetOffset);
      n, os' := EmitArc(os, gtl, flags, fsa.arcLabel[arc], targetOffset);
    }
  }
}
