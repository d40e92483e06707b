# FSA5 serializer, modelled in Dafny

This project models `FSA5Serializer`, the morfologik write path that turns an
in-memory finite-state automaton into the FSA5 binary layout of Jan Daciuk's
`fsa` package. It models the four parts of that class and proves what each
part promises:

- **State linearization.** `linearize` walks the automaton depth-first with an
  explicit stack and a visited set. It lists every reachable state once, root
  first.
- **Arc and node codec.** `emitArc` writes a label byte followed by the
  little-endian word `flags | (targetOffset << 3)`. The word takes one byte on
  a target-next arc and `gtl` bytes otherwise, and `-1` reports that it does
  not fit. `emitNodeData` writes a state's right-language count truncated to
  `nodeDataLength` bytes. The node-data width is the number of bytes the
  root's count needs.
- **Layout passes.** `emitArcs` makes one pass over the linearized states. On a
  dry pass (a null stream) it records each state's offset in the `offsets`
  table. On the real pass it writes the bytes and expects every state at its
  recorded offset.
- **Goto-length search.** `serialize` grows the goto length `gtl` from one
  until two dry passes in a row succeed. It then writes the header and makes
  the real pass.

Modules, in dependency order:

| module | contents |
|---|---|
| `LittleEndian` | bytes, little-endian encoding and decoding, and their round trip |
| `Automaton` | the automaton as seen through its accessors (sequences indexed by state and arc id, 0 meaning none), arc lists, and reachability |
| `Linearizer` | `Linearize`, a method with the source's stack-and-visited-set loop |
| `Codec` | `EmitArc`, `EmitNodeData` and `NodeDataLength` as methods with the source's byte loops; arc decoding and the header byte |
| `Layout` | one `emitArcs` pass as a function (`Pass`/`PassFrom`), and the proof that two successful dry passes make the real pass succeed at the recorded offsets |
| `Resolver` | one round of the goto-length search (`TryWidth`), the search history, and termination of the search |
| `Serializer` | the class `FSA5Serializer`, with fields `fillerByte`, `annotationByte`, `withNumbers`, `offsets` and `numbers` |

The methods of the class are proved against the `Layout` and `Resolver`
functions. `EmitArcs` returns exactly what `Pass` computes and leaves
`offsets` as `Pass` leaves the table. `Serialize` ends with the bytes of a
real pass, which the `Layout` theorems show succeeds. The body of the
`emitArcs` loop is split over four methods, each proved against its own part
of `PassFrom`:

- `EmitPrologue`: the dummy terminal state and the epsilon state.
- `EmitState`: one listed state.
- `EmitStateArcs`: one state's arc loop.
- `EmitArcRecord`: one arc's flags and target.

The goto-length loop of `serialize` is the method `FindGotoLength`.

An output stream is the datatype `Output`. `Dry` stands for the null stream of
a dry pass, and `Stream(data)` holds the bytes written so far. A state-to-int
hash map is a `map<nat, nat>` read through `Get`, which returns 0 for a missing
key, as the hash map's `get` does. The flag bits are `FINAL = 1`, `LAST = 2`
and `TARGET_NEXT = 4`.

The source keeps the `offsets` table in a field. Nothing resets it between
calls, so the first dry pass of a later `serialize` call on the same object
reads the earlier call's offsets. The model keeps that behaviour:

- `FindGotoLength` and `Serialize` start from whatever table the field holds.
- Every theorem about the search holds for an arbitrary starting table.

## Model

| member | source | states |
|---|---|---|
| Serializer.FSA5Serializer.constructor | morfologik-fsa-builders/src/main/java/morfologik/fsa/builders/FSA5Serializer.java:55-80 | a new serializer has the given filler and annotation bytes, numbers off, and empty offset and count tables |
| Serializer.FSA5Serializer.WithNumbers | morfologik-fsa-builders/src/main/java/morfologik/fsa/builders/FSA5Serializer.java:89-92 | turns numbering on, changes no other field, and returns the same object |
| Serializer.FSA5Serializer.WithFiller | morfologik-fsa-builders/src/main/java/morfologik/fsa/builders/FSA5Serializer.java:98-101 | sets the filler byte, changes no other field, and returns the same object |
| Serializer.FSA5Serializer.WithAnnotationSeparator | morfologik-fsa-builders/src/main/java/morfologik/fsa/builders/FSA5Serializer.java:107-110 | sets the annotation byte, changes no other field, and returns the same object |
| Serializer.FSA5Serializer.Serialize | morfologik-fsa-builders/src/main/java/morfologik/fsa/builders/FSA5Serializer.java:120-170 | the states are a linearization; counts are stored only with numbering on, and the node-data width is 0 without numbering and otherwise the width of the root's count; gtl is the first width the search accepted, and every earlier round was rejected; the output is the prefix, the header, filler, annotation and packed byte, then the bytes of a real pass that succeeds (the assert of lines 166-167); the output length is the prefix plus the offset the pass ends at; every state sits at its recorded offset, and that offset is its place in the tight layout |
| Serializer.FSA5Serializer.FindGotoLength | morfologik-fsa-builders/src/main/java/morfologik/fsa/builders/FSA5Serializer.java:139-153 | the search ends; it returns a gtl of at least 1 whose round (two dry passes) is accepted; each width from 1 to gtl - 1 was tried from the table the previous round left and rejected; the field holds the accepted round's table |
| Serializer.FSA5Serializer.EmitArcs | morfologik-fsa-builders/src/main/java/morfologik/fsa/builders/FSA5Serializer.java:219-282 | the result, the bytes written and the new offset table are exactly those of one pass: failure at the first arc that does not fit, offsets recorded only on a dry pass |
| Serializer.FSA5Serializer.EmitPrologue | morfologik-fsa-builders/src/main/java/morfologik/fsa/builders/FSA5Serializer.java:222-233 | writes the dummy terminal state (no-flag arc) and the epsilon state (last arc labelled '^', target-next exactly when the root is non-zero); the offset reached is the first state's base |
| Serializer.FSA5Serializer.EmitState | morfologik-fsa-builders/src/main/java/morfologik/fsa/builders/FSA5Serializer.java:236-278 | one listed state: a dry pass records its offset, the real pass finds it already recorded (line 242); the pass moves on to the next state exactly when the state's arcs fit, and otherwise the whole pass fails with what was written so far |
| Serializer.FSA5Serializer.EmitStateArcs | morfologik-fsa-builders/src/main/java/morfologik/fsa/builders/FSA5Serializer.java:247-278 | reports success exactly when every arc record of the state fits; on success the count is the records' size; the bytes written are the records up to the first that does not fit |
| Serializer.FSA5Serializer.EmitArcRecord | morfologik-fsa-builders/src/main/java/morfologik/fsa/builders/FSA5Serializer.java:248-277 | the arc is emitted with the record of `RecordOf` (flags, label, looked-up target offset); the result is -1 exactly when that record does not fit, and otherwise the record's size, with its bytes appended |
| Linearizer.Linearize | morfologik-fsa-builders/src/main/java/morfologik/fsa/builders/FSA5Serializer.java:183-214 | the list starts at the root, holds no state twice, holds only states, is closed under non-terminal arc targets, and holds exactly the states reachable from the root |
| Automaton.ClosedHoldsReachable | morfologik-fsa-builders/src/main/java/morfologik/fsa/builders/FSA5Serializer.java:204-210 | a list that holds the root and every non-terminal target of its states holds every reachable state |
| Codec.EmitArc | morfologik-fsa-builders/src/main/java/morfologik/fsa/builders/FSA5Serializer.java:285-309 | -1 exactly when `flags OR (targetOffset << 3)` does not fit in its width (1 byte on target-next, gtl otherwise), and then nothing is written; otherwise the result is 1 + width, and the label and the little-endian word are appended unless the stream is dry |
| Codec.ArcRoundTrip | morfologik-fsa-builders/src/main/java/morfologik/fsa/builders/FSA5Serializer.java:287-294 | reading a written arc record back gives its flags, label, target offset and size, whatever bytes follow it |
| Codec.EmitNodeData | morfologik-fsa-builders/src/main/java/morfologik/fsa/builders/FSA5Serializer.java:312-325 | always reports nodeDataLength; writes the low nodeDataLength bytes of the number, least significant first, which are those of the number modulo 256^nodeDataLength, and nothing on a dry pass or at width 0 |
| LittleEndian.RoundTrip | morfologik-fsa-builders/src/main/java/morfologik/fsa/builders/FSA5Serializer.java:314-317 | decoding n bytes written by the shifting loop gives the number modulo 256^n |
| LittleEndian.ToLEMod | morfologik-fsa-builders/src/main/java/morfologik/fsa/builders/FSA5Serializer.java:314-317 | the truncating write depends only on the number modulo 256^n; `EmitNodeData` states its output through it |
| Codec.NodeDataLength | morfologik-fsa-builders/src/main/java/morfologik/fsa/builders/FSA5Serializer.java:132-136 | the width holds the count, and one byte fewer does not: the least n with count >>> 8n == 0 |
| Codec.WidthUnique | morfologik-fsa-builders/src/main/java/morfologik/fsa/builders/FSA5Serializer.java:132-136 | that characterisation fixes the width uniquely |
| Codec.NodeDataLengthExamples | morfologik-fsa-builders/src/main/java/morfologik/fsa/builders/FSA5Serializer.java:132-136 | a root count of 300 needs 2 bytes and a count of 0 needs none |
| Codec.HeaderRoundTrip | morfologik-fsa-builders/src/main/java/morfologik/fsa/builders/FSA5Serializer.java:161 | while both fit a nibble, the packed header byte `(nodeDataLength << 4) OR gtl` gives back the node-data length in its high nibble and gtl in its low one |
| Layout.RecordFlags | morfologik-fsa-builders/src/main/java/morfologik/fsa/builders/FSA5Serializer.java:248-270 | final exactly when the arc is final; last exactly on the state's last arc; target-next exactly on a last, non-terminal arc to the next listed state whose looked-up offset is non-zero, and it then carries address 0; a terminal arc carries address 0 |
| Layout.PrologueLength | morfologik-fsa-builders/src/main/java/morfologik/fsa/builders/FSA5Serializer.java:222-233 | the two leading states take 2 * nodeDataLength + gtl + 3 bytes when the root is non-zero, and 2 * nodeDataLength + 2 * gtl + 2 otherwise |
| Layout.RecordsOwnOffset | morfologik-fsa-builders/src/main/java/morfologik/fsa/builders/FSA5Serializer.java:236-240 | a dry pass records each state at the running offset it has reached, whatever later states do |
| Layout.FirstStateOffset | morfologik-fsa-builders/src/main/java/morfologik/fsa/builders/FSA5Serializer.java:222-240 | a dry pass records the first listed state right after the two leading states |
| Layout.WrittenMatchesOffsets | morfologik-fsa-builders/src/main/java/morfologik/fsa/builders/FSA5Serializer.java:236-278 | a successful real pass writes exactly as many bytes as its running offset advances |
| Layout.RealPassLength | morfologik-fsa-builders/src/main/java/morfologik/fsa/builders/FSA5Serializer.java:222-282 | a successful real pass writes as many bytes as the offset it ends at, so each offset counts the bytes before its state |
| Layout.PassFrame | morfologik-fsa-builders/src/main/java/morfologik/fsa/builders/FSA5Serializer.java:239-243 | a dry pass changes the table only at the states it lists; the real pass changes nothing in it and writes to the stream it was given |
| Layout.ArcsSizeVsTight | morfologik-fsa-builders/src/main/java/morfologik/fsa/builders/FSA5Serializer.java:263-270 | a state's arcs take at least their tight size (every candidate in target-next form), and exactly that once the next state's looked-up offset is non-zero |
| Layout.ArcsFitMono | morfologik-fsa-builders/src/main/java/morfologik/fsa/builders/FSA5Serializer.java:255-270 | lowering looked-up offsets, while keeping the next state's non-zero, keeps every arc fitting |
| Layout.DryPassAtLeastTight | morfologik-fsa-builders/src/main/java/morfologik/fsa/builders/FSA5Serializer.java:236-278 | a successful dry pass records every state no earlier than the tight layout places it |
| Layout.DryPassIsTight | morfologik-fsa-builders/src/main/java/morfologik/fsa/builders/FSA5Serializer.java:236-278 | a successful dry pass over a table whose later states all have non-zero offsets records exactly the tight layout |
| Layout.RealPassFollowsDry | morfologik-fsa-builders/src/main/java/morfologik/fsa/builders/FSA5Serializer.java:236-278 | the real pass over the tight table succeeds wherever a dry pass over a table with offsets no lower did, and meets every state at its recorded offset |
| Layout.AcceptedLayoutIsConsistent | morfologik-fsa-builders/src/main/java/morfologik/fsa/builders/FSA5Serializer.java:140-167 | after two successful dry passes at one gtl, the real pass succeeds (lines 166-167), finds every state at its recorded offset (line 242), and that offset is the tight layout's |
| Resolver.RejectedExtend | morfologik-fsa-builders/src/main/java/morfologik/fsa/builders/FSA5Serializer.java:140-153 | a rejected round extends the history of rejected rounds by the table it leaves |
| Resolver.AcceptedIsFinal | morfologik-fsa-builders/src/main/java/morfologik/fsa/builders/FSA5Serializer.java:140-167 | the table an accepted round leaves makes the real pass succeed at its recorded offsets, which are the tight layout's |
| Resolver.DryPassBounded | morfologik-fsa-builders/src/main/java/morfologik/fsa/builders/FSA5Serializer.java:236-278 | a dry pass keeps every offset within any bound that covers the layout in which no arc takes the target-next form, and succeeds once gtl holds that bound shifted left by three |
| Resolver.TryWidthBounded | morfologik-fsa-builders/src/main/java/morfologik/fsa/builders/FSA5Serializer.java:140-153 | one round keeps the table within that bound, and is accepted once gtl holds it |
| Resolver.SearchEnds | morfologik-fsa-builders/src/main/java/morfologik/fsa/builders/FSA5Serializer.java:140-153 | from any starting table, some width no greater than a bound computed from the automaton and the starting table is accepted, so the `while (true)` loop ends |

## Left out

- The `FSA` class is not part of this model. The automaton is a value of
  accessor sequences, and `Fsa.Valid` asks that every arc list only move
  forward through the arc ids. That guarantees every arc list ends, which the
  source relies on without stating.
- `OutputStream` and `ByteBuffer` are not modelled as objects. A stream is the
  bytes written so far, and `IOException` is not modelled.
- The `ByteBuffer` of 16 bytes would overflow once an arc record grows past
  it (gtl of 16 or more). The model has no buffer capacity.
- `FSAHeader.write(os, FSA5.VERSION)` is not part of this model. Its bytes are
  the opaque `header` argument of `Serialize`.
- `FSAUtils.rightLanguageForAllStates` is not part of this model. Its result is
  the `rightLanguage` argument of `Serialize`.
- Java's 32-bit `int` is not modelled. Offsets, counts and the packed arc word
  are unbounded naturals, so the model does not capture the wrap-around of
  `targetOffset << 3` for offsets of 2^28 or more, nor negative counts.
- `getFlags` returns a constant set and is not modelled.
- The `FSA5.DEFAULT_FILLER` and `FSA5.DEFAULT_ANNOTATION` constants are not
  part of this model. They are arguments of the constructor.
- The growth of the `linearized` array by 100000 slots is a capacity detail.
  Only the final contents are modelled.
- Linearizer.Linearize: the contract fixes the set of states, that each
  appears once and that the root is first, but not the exact depth-first
  order in which the loop lists them.
- Serializer.FSA5Serializer.EmitArcs: requires gtl >= 1, which every call in
  the source satisfies. On the real pass it also requires the offset table to
  be consistent. That turns the `assert` at line 242 into a precondition
  instead of a runtime failure. `Serialize` proves the precondition holds for
  the table the search accepts.
- Codec.HeaderRoundTrip: holds only while nodeDataLength and gtl are below
  16. `HeaderByte` models the OR and the byte cast for every input.
