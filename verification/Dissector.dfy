/** The Wireshark dissector: a second reading of the wire format, by fixed offsets, and its agreement with the codec. */
module Dissector {
  import opened Bytes
  import opened Messages
  import opened Codec
  import Crc

  /** One entry of the payload tree: what it is called, which bytes it highlights, what it reads there. */
  datatype Cut = Cut(kind: Kind, at: nat, len: nat, value: nat)

  // ---------------------------------------------------------------- the specification: fields laid end to end

  function Repeat(k: Kind, n: nat): (ks: seq<Kind>)
    ensures |ks| == n
  {
    if n == 0 then [] else [k] + Repeat(k, n - 1)
  }

  function RepeatPair(n: nat): (ks: seq<Kind>)
    ensures |ks| == 2 * n
  {
    if n == 0 then [] else [Addr] + ([Data] + RepeatPair(n - 1))
  }

  /** The element count at `off`; when it is out of range the dissector stops there. */
  function CountAt(cfg: Config, p: seq<byte>, off: nat): nat {
    if off + cfg.lenBytes <= |p| then At(p, off, cfg.lenBytes) else 0
  }

  predicate Known(t: byte) {
    t in {0x01, 0x80, 0xC1, 0x10, 0x51, 0x91, 0xD0, 0x04, 0x85, 0xC4, 0x15, 0x54, 0x94, 0xD5, 0x08, 0x89, 0xC8,
          0x19, 0x58, 0x98, 0xD9, 0x20, 0x61, 0xA1, 0xE0, 0xB0}
  }

  predicate IsNakOrInterrupt(t: byte) {
    t in {0xC1, 0xD0, 0xC4, 0xD5, 0xC8, 0xD9, 0xE0, 0xB0}
  }

  function WriteSeqLayout(n: nat): seq<Kind> {
    [Addr] + ([Incr] + ([Count] + Repeat(Data, n)))
  }

  /** The fields of a payload of type `t`, in order. */
  function Layout(cfg: Config, t: byte, p: seq<byte>): seq<Kind> {
    if t == 0x01 then [Addr]
    else if t == 0x80 then [Data]
    else if IsNakOrInterrupt(t) then [Status]
    else if t == 0x10 || t == 0x51 then [Addr] + [Data]
    else if t == 0x04 then [Addr] + ([Incr] + [Count])
    else if t == 0x85 || t == 0x89 then [Count] + Repeat(Data, CountAt(cfg, p, 0))
    else if t == 0x15 || t == 0x54 then
      WriteSeqLayout(CountAt(cfg, p, cfg.addrBytes + cfg.lenBytes))
    else if t == 0x08 then [Count] + Repeat(Addr, CountAt(cfg, p, 0))
    else if t == 0x19 || t == 0x58 then [Count] + RepeatPair(CountAt(cfg, p, 0))
    else if t == 0x20 || t == 0x61 then [Addr] + ([Data] + [Mask])
    else []
  }

  /** The fields `ks` cut from `p` one after the other, starting at `off`, up to the first that does not fit. */
  function Slices(cfg: Config, ks: seq<Kind>, p: seq<byte>, off: nat): seq<Cut>
    decreases |ks|
  {
    if ks == [] then [] else
      var w := Width(cfg, ks[0]);
      if off + w > |p| then [] else [Cut(ks[0], off, w, At(p, off, w))] + Slices(cfg, ks[1..], p, off + w)
  }

  function Total(cfg: Config, ks: seq<Kind>): nat {
    if ks == [] then 0 else Width(cfg, ks[0]) + Total(cfg, ks[1..])
  }

  lemma Slices1(cfg: Config, k: Kind, rest: seq<Kind>, p: seq<byte>, off: nat)
    ensures var w := Width(cfg, k);
            Slices(cfg, [k] + rest, p, off)
            == if off + w > |p| then [] else [Cut(k, off, w, At(p, off, w))] + Slices(cfg, rest, p, off + w)
    ensures Total(cfg, [k] + rest) == Width(cfg, k) + Total(cfg, rest)
  {
    assert ([k] + rest)[1..] == rest;
  }

  lemma Slices0(cfg: Config, k: Kind, p: seq<byte>, off: nat)
    ensures var w := Width(cfg, k);
            Slices(cfg, [k], p, off) == if off + w > |p| then [] else [Cut(k, off, w, At(p, off, w))]
    ensures Total(cfg, [k]) == Width(cfg, k)
  {
    assert [k][1..] == [];
  }

  lemma {:induction false} TotalRepeat(cfg: Config, k: Kind, n: nat)
    ensures Total(cfg, Repeat(k, n)) == Span(n, Width(cfg, k))
  {
    if n > 0 {
      assert Repeat(k, n)[1..] == Repeat(k, n - 1);
      TotalRepeat(cfg, k, n - 1);
    }
  }

  lemma {:induction false} TotalRepeatPair(cfg: Config, n: nat)
    ensures Total(cfg, RepeatPair(n)) == Span(n, cfg.addrBytes + cfg.dataBytes)
  {
    if n > 0 {
      TotalRepeatPair(cfg, n - 1);
      Slices1(cfg, Addr, [Data] + RepeatPair(n - 1), [], 0);
      Slices1(cfg, Data, RepeatPair(n - 1), [], 0);
    }
  }

  lemma TotalCounted(cfg: Config, k: Kind, n: nat)
    ensures Total(cfg, [Count] + Repeat(k, n)) == cfg.lenBytes + Span(n, Width(cfg, k))
  {
    TotalRepeat(cfg, k, n);
    Slices1(cfg, Count, Repeat(k, n), [], 0);
  }

  lemma TotalCountedPairs(cfg: Config, n: nat)
    ensures Total(cfg, [Count] + RepeatPair(n)) == cfg.lenBytes + Span(n, cfg.addrBytes + cfg.dataBytes)
  {
    TotalRepeatPair(cfg, n);
    Slices1(cfg, Count, RepeatPair(n), [], 0);
  }

  lemma TotalFixed(cfg: Config, j: Kind, k: Kind, l: Kind)
    ensures Total(cfg, [j]) == Width(cfg, j)
    ensures Total(cfg, [j] + [k]) == Width(cfg, j) + Width(cfg, k)
    ensures Total(cfg, [j] + ([k] + [l])) == Width(cfg, j) + Width(cfg, k) + Width(cfg, l)
  {
    Slices0(cfg, j, [], 0);
    Slices0(cfg, k, [], 0);
    Slices0(cfg, l, [], 0);
    Slices1(cfg, j, [k], [], 0);
    Slices1(cfg, k, [l], [], 0);
    Slices1(cfg, j, [k] + [l], [], 0);
  }

  lemma TotalWriteSeq(cfg: Config, n: nat)
    ensures Total(cfg, WriteSeqLayout(n)) == cfg.addrBytes + cfg.lenBytes + cfg.lenBytes + Span(n, cfg.dataBytes)
  {
    var ks := Repeat(Data, n);
    TotalRepeat(cfg, Data, n);
    Slices1(cfg, Count, ks, [], 0);
    Slices1(cfg, Incr, [Count] + ks, [], 0);
    Slices1(cfg, Addr, [Incr] + ([Count] + ks), [], 0);
  }

  /** The dissector's index arithmetic. */
  method ElementAt(fi: nat, i: nat, w: nat) returns (at: nat)
    ensures at == fi + Span(i, w)
  {
    SpanIsProduct(i, w);
    at := fi + i * w;
  }

  lemma SpanNext(i: nat, left: nat, w: nat)
    ensures Span(i + 1, w) == Span(i, w) + w && Span(left + 1, w) == w + Span(left, w)
  {
  }

  lemma NothingLeft(cfg: Config, k: Kind, p: seq<byte>, off: nat, cuts: seq<Cut>)
    ensures cuts + Slices(cfg, Repeat(k, 0), p, off) == cuts
    ensures cuts + Slices(cfg, RepeatPair(0), p, off) == cuts
  {
  }

  lemma MoveOver(cuts: seq<Cut>, x: seq<Cut>, rest: seq<Cut>)
    ensures (cuts + x) + rest == cuts + (x + rest)
    ensures cuts + [] == cuts
  {
  }

  // ---------------------------------------------------------------- the dissector

  /** What a frame is shown as. `complete` is false when a field was out of range or the type unknown. */
  datatype Dissection =
    | Nothing
    | ShortFrame
    | Shown(txn: byte, msgType: byte, crc: nat, payloadAt: nat, payloadLen: nat, crcAt: nat, cuts: seq<Cut>, complete: bool)

  class PayloadTree {
    const cfg: Config
    const payload: seq<byte>
    var cuts: seq<Cut>

    constructor (cfg: Config, payload: seq<byte>)
      ensures this.cfg == cfg && this.payload == payload && cuts == []
    {
      this.cfg := cfg;
      this.payload := payload;
      cuts := [];
    }

    /** Add a little-endian field; a range outside the buffer raises an error that ends the dissection. */
    method AddLe(kind: Kind, at: nat, len: nat) returns (r: Result<nat>)
      modifies this
      ensures at + len > |payload| ==> r == Err(Malformed) && cuts == old(cuts)
      ensures at + len <= |payload| ==>
                r == Ok(At(payload, at, len)) && cuts == old(cuts) + [Cut(kind, at, len, At(payload, at, len))]
    {
      if at + len > |payload| {
        return Err(Malformed);
      }
      var v := At(payload, at, len);
      cuts := cuts + [Cut(kind, at, len, v)];
      return Ok(v);
    }

    /** Add the first of the fields `[kind] + rest` that `goal` still misses. */
    method AddField(kind: Kind, at: nat, len: nat, ghost rest: seq<Kind>, ghost goal: seq<Cut>) returns (r: Result<nat>)
      requires len == Width(cfg, kind) && goal == cuts + Slices(cfg, [kind] + rest, payload, at)
      modifies this
      ensures r == if at + len <= |payload| then Ok(At(payload, at, len)) else Err(Malformed)
      ensures goal == if r.Ok? then cuts + Slices(cfg, rest, payload, at + len) else cuts
    {
      Slices1(cfg, kind, rest, payload, at);
      if at + len <= |payload| {
        MoveOver(cuts, [Cut(kind, at, len, At(payload, at, len))], Slices(cfg, rest, payload, at + len));
      }
      r := AddLe(kind, at, len);
    }

    /** After `i` of `count` fields of `w` bytes laid end to end from `fi`; `rest` are the ones still to be cut. */
    ghost predicate Halfway(fi: nat, w: nat, count: nat, i: nat, rest: seq<Kind>, goal: seq<Cut>)
      reads this
    {
      && i <= count && fi + Span(i, w) <= |payload| && Span(i, w) + Span(count - i, w) == Span(count, w)
      && goal == cuts + Slices(cfg, rest, payload, fi + Span(i, w))
    }

    lemma HalfwayDone(kind: Kind, fi: nat, w: nat, count: nat, goal: seq<Cut>)
      requires Halfway(fi, w, count, count, Repeat(kind, 0), goal) || Halfway(fi, w, count, count, RepeatPair(0), goal)
      ensures goal == cuts && fi + Span(count, w) <= |payload|
    {
      NothingLeft(cfg, kind, payload, fi + Span(count, w), cuts);
    }

    /** The array loops: element `i` sits at `fi + i * width`. */
    method AddArray(kind: Kind, fi: nat, count: nat) returns (ok: bool)
      requires fi <= |payload|
      modifies this
      ensures cuts == old(cuts) + Slices(cfg, Repeat(kind, count), payload, fi)
      ensures ok <==> fi + Span(count, Width(cfg, kind)) <= |payload|
    {
      var w := Width(cfg, kind);
      ghost var goal := cuts + Slices(cfg, Repeat(kind, count), payload, fi);
      var i := 0;
      while i < count
        invariant i <= count
        invariant Halfway(fi, w, count, i, Repeat(kind, count - i), goal)
      {
        var added := AddElement(kind, fi, w, count, i, count - i - 1, goal);
        if !added { return false; }
        i := i + 1;
      }
      HalfwayDone(kind, fi, w, count, goal);
      return true;
    }

    method AddElement(kind: Kind, fi: nat, w: nat, ghost count: nat, i: nat, ghost left: nat, ghost goal: seq<Cut>)
      returns (ok: bool)
      requires w == Width(cfg, kind) && i + left + 1 == count
      requires Halfway(fi, w, count, i, Repeat(kind, left + 1), goal)
      modifies this
      ensures ok ==> Halfway(fi, w, count, i + 1, Repeat(kind, left), goal)
      ensures !ok ==> goal == cuts && fi + Span(count, w) > |payload|
    {
      SpanNext(i, left, w);
      var at := ElementAt(fi, i, w);
      var v := AddField(kind, at, w, Repeat(kind, left), goal);
      return v.Ok?;
    }

    /** The loop over address and data pairs. */
    method AddPairs(fi: nat, count: nat) returns (ok: bool)
      requires fi <= |payload|
      modifies this
      ensures cuts == old(cuts) + Slices(cfg, RepeatPair(count), payload, fi)
      ensures ok <==> fi + Span(count, cfg.addrBytes + cfg.dataBytes) <= |payload|
    {
      var w := cfg.addrBytes + cfg.dataBytes;
      ghost var goal := cuts + Slices(cfg, RepeatPair(count), payload, fi);
      var i := 0;
      while i < count
        invariant i <= count
        invariant Halfway(fi, w, count, i, RepeatPair(count - i), goal)
      {
        var added := AddPair(fi, w, count, i, count - i - 1, goal);
        if !added { return false; }
        i := i + 1;
      }
      HalfwayDone(Addr, fi, w, count, goal);
      return true;
    }

    method AddPair(fi: nat, w: nat, ghost count: nat, i: nat, ghost left: nat, ghost goal: seq<Cut>) returns (ok: bool)
      requires w == cfg.addrBytes + cfg.dataBytes && i + left + 1 == count
      requires Halfway(fi, w, count, i, RepeatPair(left + 1), goal)
      modifies this
      ensures ok ==> Halfway(fi, w, count, i + 1, RepeatPair(left), goal)
      ensures !ok ==> goal == cuts && fi + Span(count, w) > |payload|
    {
      SpanNext(i, left, w);
      var adi := ElementAt(fi, i, w);
      var addr := AddField(Addr, adi, cfg.addrBytes, [Data] + RepeatPair(left), goal);
      if addr.Err? { return false; }
      var data := AddField(Data, adi + cfg.addrBytes, cfg.dataBytes, RepeatPair(left), goal);
      return data.Ok?;
    }

    // -------------------------------------------------------------- one branch each

    ghost predicate Showing(ks: seq<Kind>, ok: bool)
      reads this
    {
      cuts == Slices(cfg, ks, payload, 0) && (ok <==> Total(cfg, ks) <= |payload|)
    }

    method ShowOne(k: Kind) returns (ok: bool)
      requires cuts == []
      modifies this
      ensures Showing([k], ok)
    {
      Slices0(cfg, k, payload, 0);
      var v := AddLe(k, 0, Width(cfg, k));
      return v.Ok?;
    }

    method ShowAddrData() returns (ok: bool)
      requires cuts == []
      modifies this
      ensures Showing([Addr] + [Data], ok)
    {
      Slices1(cfg, Addr, [Data], payload, 0);
      Slices0(cfg, Data, payload, cfg.addrBytes);
      var addr := AddLe(Addr, 0, cfg.addrBytes);
      if addr.Err? { return false; }
      var data := AddLe(Data, cfg.addrBytes, cfg.dataBytes);
      return data.Ok?;
    }

    method ShowThree(j: Kind, k: Kind, l: Kind) returns (ok: bool)
      requires cuts == []
      modifies this
      ensures Showing([j] + ([k] + [l]), ok)
    {
      var u, v, w := Width(cfg, j), Width(cfg, k), Width(cfg, l);
      Slices1(cfg, j, [k] + [l], payload, 0);
      Slices1(cfg, k, [l], payload, u);
      Slices0(cfg, l, payload, u + v);
      var first := AddLe(j, 0, u);
      if first.Err? { return false; }
      var second := AddLe(k, u, v);
      if second.Err? { return false; }
      var third := AddLe(l, u + v, w);
      return third.Ok?;
    }

    method ShowCounted(k: Kind) returns (ok: bool)
      requires cuts == []
      modifies this
      ensures Showing([Count] + Repeat(k, CountAt(cfg, payload, 0)), ok)
    {
      ghost var ks := Repeat(k, CountAt(cfg, payload, 0));
      TotalCounted(cfg, k, CountAt(cfg, payload, 0));
      var count := AddFirstField(Count, cfg.lenBytes, ks, Slices(cfg, [Count] + ks, payload, 0));
      if count.Err? { return false; }
      ok := AddArray(k, cfg.lenBytes, count.value);
    }

    method ShowPairs() returns (ok: bool)
      requires cuts == []
      modifies this
      ensures Showing([Count] + RepeatPair(CountAt(cfg, payload, 0)), ok)
    {
      ghost var ks := RepeatPair(CountAt(cfg, payload, 0));
      TotalCountedPairs(cfg, CountAt(cfg, payload, 0));
      var count := AddFirstField(Count, cfg.lenBytes, ks, Slices(cfg, [Count] + ks, payload, 0));
      if count.Err? { return false; }
      ok := AddPairs(cfg.lenBytes, count.value);
    }

    method ShowWriteSeq() returns (ok: bool)
      requires cuts == []
      modifies this
      ensures Showing(WriteSeqLayout(CountAt(cfg, payload, cfg.addrBytes + cfg.lenBytes)), ok)
    {
      var A, L := cfg.addrBytes, cfg.lenBytes;
      ghost var n := CountAt(cfg, payload, A + L);
      TotalWriteSeq(cfg, n);
      var count := ShowSeqHeader(Repeat(Data, n), Slices(cfg, WriteSeqLayout(n), payload, 0));
      if count.Err? { return false; }
      ok := AddArray(Data, A + L + L, count.value);
    }

    method ShowSeqHeader(ghost ks: seq<Kind>, ghost goal: seq<Cut>) returns (r: Result<nat>)
      requires cuts == [] && goal == Slices(cfg, [Addr] + ([Incr] + ([Count] + ks)), payload, 0)
      modifies this
      ensures var A, L := cfg.addrBytes, cfg.lenBytes;
        && (r.Ok? <==> A + L + L <= |payload|) && (r.Ok? ==> r.value == At(payload, A + L, L))
        && goal == if r.Ok? then cuts + Slices(cfg, ks, payload, A + L + L) else cuts
    {
      var A, L := cfg.addrBytes, cfg.lenBytes;
      var addr := AddFirstField(Addr, A, [Incr] + ([Count] + ks), goal);
      if addr.Err? { return Err(Malformed); }
      var increment := AddField(Incr, A, L, [Count] + ks, goal);
      if increment.Err? { return Err(Malformed); }
      r := AddField(Count, A + L, L, ks, goal);
    }

    method AddFirstField(kind: Kind, len: nat, ghost rest: seq<Kind>, ghost goal: seq<Cut>) returns (r: Result<nat>)
      requires len == Width(cfg, kind) && cuts == [] && goal == Slices(cfg, [kind] + rest, payload, 0)
      modifies this
      ensures r == if len <= |payload| then Ok(At(payload, 0, len)) else Err(Malformed)
      ensures goal == if r.Ok? then cuts + Slices(cfg, rest, payload, len) else cuts
    {
      assert cuts + goal == goal;
      r := AddField(kind, 0, len, rest, goal);
    }

    /** The chain of branches on the message type. */
    method Show(t: byte) returns (ok: bool)
      requires cuts == []
      modifies this
      ensures cuts == Slices(cfg, Layout(cfg, t, payload), payload, 0)
      ensures ok <==> Known(t) && Total(cfg, Layout(cfg, t, payload)) <= |payload|
    {
      if t == 0x01 { ok := ShowOne(Addr); }
      else if t == 0x80 { ok := ShowOne(Data); }
      else if t == 0xC1 { ok := ShowOne(Status); }
      else if t == 0x10 || t == 0x51 { ok := ShowAddrData(); }
      else if t == 0x91 { ok := true; }
      else if t == 0xD0 { ok := ShowOne(Status); }
      else if t == 0x04 { ok := ShowThree(Addr, Incr, Count); }
      else if t == 0x85 { ok := ShowCounted(Data); }
      else if t == 0xC4 { ok := ShowOne(Status); }
      else if t == 0x15 || t == 0x54 { ok := ShowWriteSeq(); }
      else if t == 0x94 { ok := true; }
      else if t == 0xD5 { ok := ShowOne(Status); }
      else if t == 0x08 { ok := ShowCounted(Addr); }
      else if t == 0x89 { ok := ShowCounted(Data); }
      else if t == 0xC8 { ok := ShowOne(Status); }
      else if t == 0x19 || t == 0x58 { ok := ShowPairs(); }
      else if t == 0x98 { ok := true; }
      else if t == 0xD9 { ok := ShowOne(Status); }
      else if t == 0x20 || t == 0x61 { ok := ShowThree(Addr, Data, Mask); }
      else if t == 0xA1 { ok := true; }
      else if t == 0xE0 { ok := ShowOne(Status); }
      else if t == 0xB0 { ok := ShowOne(Status); }
      else { ok := false; }
    }
  }

  /** The whole dissector: header and CRC at their fixed places, then the payload by its type. */
  method Dissect(cfg: Config, b: seq<byte>) returns (d: Dissection)
    requires cfg.Valid()
    ensures b == [] ==> d == Nothing
    ensures 0 < |b| < 2 + cfg.crcBytes ==> d == ShortFrame
    ensures |b| >= 2 + cfg.crcBytes ==> d == Dissected(cfg, b)
  {
    if |b| == 0 { return Nothing; }
    if |b| < 2 + cfg.crcBytes { return ShortFrame; }
    var payloadLen := |b| - 2 - cfg.crcBytes;
    var crc := FromLE(b[|b| - cfg.crcBytes..]);
    var tree := new PayloadTree(cfg, b[2..2 + payloadLen]);
    var ok := tree.Show(b[1]);
    return Shown(b[0], b[1], crc, 2, payloadLen, |b| - cfg.crcBytes, tree.cuts, ok);
  }

  function Dissected(cfg: Config, b: seq<byte>): Dissection
    requires |b| >= 2 + cfg.crcBytes
  {
    var p, ks := Payload(cfg, b), Layout(cfg, b[1], Payload(cfg, b));
    Shown(b[0], b[1], WireCrc(cfg, b), 2, |p|, |b| - cfg.crcBytes, Slices(cfg, ks, p, 0),
          Known(b[1]) && Total(cfg, ks) <= |p|)
  }

  // ---------------------------------------------------------------- agreement with the decoders

  function FieldOf(c: Cut): Field {
    Field(c.kind, c.value)
  }

  function FieldsOf(cuts: seq<Cut>): (fs: seq<Field>)
    ensures |fs| == |cuts|
  {
    if cuts == [] then [] else [FieldOf(cuts[0])] + FieldsOf(cuts[1..])
  }

  function KindsOf(fs: seq<Field>): (ks: seq<Kind>)
    ensures |ks| == |fs|
  {
    if fs == [] then [] else [fs[0].kind] + KindsOf(fs[1..])
  }

  /** The highlighted ranges lie end to end from `from` to `to`. */
  ghost predicate Tiles(cuts: seq<Cut>, from: nat, to: nat)
    decreases |cuts|
  {
    if cuts == [] then from == to
    else cuts[0].at == from && Tiles(cuts[1..], from + cuts[0].len, to)
  }

  /** The cuts show exactly the fields `fs`, in order, and cover a payload of `n` bytes without gap or overlap. */
  ghost predicate Shows(cuts: seq<Cut>, fs: seq<Field>, from: nat, n: nat) {
    FieldsOf(cuts) == fs && Tiles(cuts, from, n)
  }

  /** Cutting by layout and reading by cursor see the same fields. */
  lemma {:induction false} ReadsAreSlices(cfg: Config, fs: seq<Field>, p: seq<byte>, off: nat)
    requires Reads(cfg, fs, p, off)
    ensures Shows(Slices(cfg, KindsOf(fs), p, off), fs, off, |p|)
    ensures off + Total(cfg, KindsOf(fs)) == |p|
    decreases |fs|
  {
    if fs != [] {
      var w, rest := Width(cfg, fs[0].kind), fs[1..];
      var tail := Slices(cfg, KindsOf(rest), p, off + w);
      ReadsAreSlices(cfg, rest, p, off + w);
      Slices1(cfg, fs[0].kind, KindsOf(rest), p, off);
      assert ([Cut(fs[0].kind, off, w, fs[0].value)] + tail)[1..] == tail;
      assert fs == [fs[0]] + rest;
    }
  }

  lemma KindsCons(f: Field, rest: seq<Field>)
    ensures KindsOf([f] + rest) == [f.kind] + KindsOf(rest)
  {
    assert ([f] + rest)[1..] == rest;
  }

  lemma {:induction false} KindsEach(k: Kind, vs: seq<nat>)
    ensures KindsOf(Each(k, vs)) == Repeat(k, |vs|)
  {
    if vs != [] {
      KindsEach(k, vs[1..]);
      KindsCons(Field(k, vs[0]), Each(k, vs[1..]));
    }
  }

  lemma {:induction false} KindsEachPair(ps: seq<(nat, nat)>)
    ensures KindsOf(EachPair(ps)) == RepeatPair(|ps|)
  {
    if ps != [] {
      var a, d := Field(Addr, ps[0].0), Field(Data, ps[0].1);
      KindsEachPair(ps[1..]);
      assert EachPair(ps) == [a] + ([d] + EachPair(ps[1..]));
      KindsCons(a, [d] + EachPair(ps[1..]));
      KindsCons(d, EachPair(ps[1..]));
    }
  }

  lemma Kinds1(f: Field)
    ensures KindsOf([f]) == [f.kind]
  {
    assert [f][1..] == [];
  }

  lemma Kinds2(f: Field, g: Field)
    ensures KindsOf([f, g]) == [f.kind] + [g.kind]
  {
    assert [f, g] == [f] + [g];
    KindsCons(f, [g]);
    Kinds1(g);
  }

  lemma Kinds3(f: Field, g: Field, h: Field, rest: seq<Field>)
    ensures KindsOf([f, g, h] + rest) == [f.kind] + ([g.kind] + ([h.kind] + KindsOf(rest)))
  {
    assert [f, g, h] + rest == [f] + ([g] + ([h] + rest));
    KindsCons(f, [g] + ([h] + rest));
    KindsCons(g, [h] + rest);
    KindsCons(h, rest);
  }

  lemma FixedLayout(cfg: Config, c: Command, p: seq<byte>)
    requires !c.WriteSeq? && !c.ReadComp? && !c.WriteComp?
    ensures KindsOf(CommandFields(c)) == Layout(cfg, CommandType(c), p)
  {
    match c
    case ReadSingle(_, a) => Kinds1(Field(Addr, a));
    case WriteSingle(_, _, a, d) => Kinds2(Field(Addr, a), Field(Data, d));
    case ReadSeq(_, a, incr, n) => KindsThree(Field(Addr, a), Field(Incr, incr), Field(Count, n));
    case ReadModifyWrite(_, _, a, d, m) => KindsThree(Field(Addr, a), Field(Data, d), Field(Mask, m));
  }

  lemma CompLayout(cfg: Config, c: Command, p: seq<byte>)
    requires (c.ReadComp? || c.WriteComp?) && Reads(cfg, CommandFields(c), p, 0)
    ensures KindsOf(CommandFields(c)) == Layout(cfg, CommandType(c), p)
  {
    if c.ReadComp? {
      FirstCount(cfg, |c.addresses|, Each(Addr, c.addresses), p);
      CountedKinds(cfg, Addr, c.addresses, p);
    } else {
      FirstCount(cfg, |c.pairs|, EachPair(c.pairs), p);
      PairsKinds(cfg, c.pairs, p);
    }
  }

  lemma CommandLayout(cfg: Config, c: Command, p: seq<byte>)
    requires Reads(cfg, CommandFields(c), p, 0)
    ensures KindsOf(CommandFields(c)) == Layout(cfg, CommandType(c), p)
  {
    if c.WriteSeq? {
      WriteSeqKinds(cfg, c.addr, c.increment, c.values, p);
    } else if c.ReadComp? || c.WriteComp? {
      CompLayout(cfg, c, p);
    } else {
      FixedLayout(cfg, c, p);
    }
  }

  lemma KindsThree(f: Field, g: Field, h: Field)
    ensures KindsOf([f, g, h]) == [f.kind] + ([g.kind] + [h.kind])
  {
    assert [f, g, h] + [] == [f, g, h];
    Kinds3(f, g, h, []);
    assert [h.kind] + [] == [h.kind];
  }

  lemma WriteSeqKinds(cfg: Config, a: nat, incr: nat, vs: seq<nat>, p: seq<byte>)
    requires Reads(cfg, [Field(Addr, a), Field(Incr, incr), Field(Count, |vs|)] + Each(Data, vs), p, 0)
    ensures KindsOf([Field(Addr, a), Field(Incr, incr), Field(Count, |vs|)] + Each(Data, vs))
         == WriteSeqLayout(CountAt(cfg, p, cfg.addrBytes + cfg.lenBytes))
  {
    Reads3(cfg, Field(Addr, a), Field(Incr, incr), Field(Count, |vs|), Each(Data, vs), p);
    Kinds3(Field(Addr, a), Field(Incr, incr), Field(Count, |vs|), Each(Data, vs));
    KindsEach(Data, vs);
  }

  lemma FirstCount(cfg: Config, n: nat, rest: seq<Field>, p: seq<byte>)
    requires Reads(cfg, [Field(Count, n)] + rest, p, 0)
    ensures CountAt(cfg, p, 0) == n
  {
    Reads1(cfg, Field(Count, n), rest, p, 0);
  }

  lemma CountedKinds(cfg: Config, k: Kind, vs: seq<nat>, p: seq<byte>)
    requires CountAt(cfg, p, 0) == |vs|
    ensures KindsOf([Field(Count, |vs|)] + Each(k, vs)) == [Count] + Repeat(k, CountAt(cfg, p, 0))
  {
    KindsCons(Field(Count, |vs|), Each(k, vs));
    KindsEach(k, vs);
  }

  lemma PairsKinds(cfg: Config, ps: seq<(nat, nat)>, p: seq<byte>)
    requires CountAt(cfg, p, 0) == |ps|
    ensures KindsOf([Field(Count, |ps|)] + EachPair(ps)) == [Count] + RepeatPair(CountAt(cfg, p, 0))
  {
    KindsCons(Field(Count, |ps|), EachPair(ps));
    KindsEachPair(ps);
  }

  lemma ResponseLayout(cfg: Config, r: Response, p: seq<byte>)
    requires Reads(cfg, ResponseFields(r), p, 0)
    ensures KindsOf(ResponseFields(r)) == Layout(cfg, ResponseType(r), p)
  {
    if r.ReadSeqAck? || r.ReadCompAck? {
      FirstCount(cfg, |r.values|, Each(Data, r.values), p);
      CountedKinds(cfg, Data, r.values, p);
    } else if r.ReadSingleAck? {
      Kinds1(Field(Data, r.data));
    } else if !r.WriteSingleAck? && !r.WriteSeqAck? && !r.WriteCompAck? && !r.ReadModifyWriteAck? {
      Kinds1(Field(Status, r.status));
    }
  }

  lemma FieldsShown(cfg: Config, fs: seq<Field>, t: byte, p: seq<byte>)
    requires Reads(cfg, fs, p, 0) && KindsOf(fs) == Layout(cfg, t, p)
    ensures Shows(Slices(cfg, Layout(cfg, t, p), p, 0), fs, 0, |p|) && Total(cfg, Layout(cfg, t, p)) == |p|
  {
    ReadsAreSlices(cfg, fs, p, 0);
  }

  /** For every frame that decodeCommand accepts, the dissector shows the same message: the id, the type, the CRC, and
      all fields of the payload, in order, over ranges that tile it. */
  lemma CommandShown(cfg: Config, b: seq<byte>, c: Command)
    requires cfg.Valid() && DecodedCommand(cfg, b) == Ok(c)
    ensures var d := Dissected(cfg, b);
      && d.txn == c.txn && d.msgType == CommandType(c) && d.complete
      && Shows(d.cuts, CommandFields(c), 0, d.payloadLen)
      && d.payloadAt == 2 && d.payloadAt + d.payloadLen == d.crcAt && d.crcAt + cfg.crcBytes == |b|
      && d.crc == Crc.Calculate(cfg.crcBytes, b[..d.crcAt])
  {
    var p := Payload(cfg, b);
    CommandPayloadExact(cfg, b[0], b[1], p, c);
    CommandLayout(cfg, c, p);
    FieldsShown(cfg, CommandFields(c), b[1], p);
  }

  lemma ResponseShown(cfg: Config, b: seq<byte>, r: Response)
    requires cfg.Valid() && DecodedResponse(cfg, b) == Ok(r)
    ensures var d := Dissected(cfg, b);
      && d.txn == r.txn && d.msgType == ResponseType(r) && d.complete
      && Shows(d.cuts, ResponseFields(r), 0, d.payloadLen)
      && d.payloadAt == 2 && d.payloadAt + d.payloadLen == d.crcAt && d.crcAt + cfg.crcBytes == |b|
      && d.crc == Crc.Calculate(cfg.crcBytes, b[..d.crcAt])
  {
    var p := Payload(cfg, b);
    ResponsePayloadExact(cfg, b[0], b[1], p, r);
    ResponseLayout(cfg, r, p);
    FieldsShown(cfg, ResponseFields(r), b[1], p);
  }

  // ---------------------------------------------------------------- the converse

  lemma {:induction false} SlicesTile(cfg: Config, ks: seq<Kind>, p: seq<byte>, off: nat, to: nat)
    requires off + Total(cfg, ks) <= |p|
    ensures Tiles(Slices(cfg, ks, p, off), off, to) <==> to == off + Total(cfg, ks)
    decreases |ks|
  {
    if ks != [] {
      var w := Width(cfg, ks[0]);
      var tail := Slices(cfg, ks[1..], p, off + w);
      SlicesTile(cfg, ks[1..], p, off + w, to);
      assert ([Cut(ks[0], off, w, At(p, off, w))] + tail)[1..] == tail;
    }
  }

  lemma TiledFixed(cfg: Config, txn: byte, t: byte, p: seq<byte>)
    requires t in {0x01, 0x10, 0x51, 0x04, 0x20, 0x61}
    requires Total(cfg, Layout(cfg, t, p)) == |p|
    ensures DecodedCommandPayload(cfg, txn, t, p).Ok?
  {
    TotalFixed(cfg, Addr, Data, Mask);
    TotalFixed(cfg, Addr, Incr, Count);
  }

  lemma TiledWriteSeq(cfg: Config, txn: byte, posted: bool, p: seq<byte>)
    requires Total(cfg, WriteSeqLayout(CountAt(cfg, p, cfg.addrBytes + cfg.lenBytes))) == |p|
    ensures DecodedWriteSeq(cfg, txn, posted, p).Ok?
  {
    TotalWriteSeq(cfg, CountAt(cfg, p, cfg.addrBytes + cfg.lenBytes));
  }

  lemma TiledReadComp(cfg: Config, txn: byte, p: seq<byte>)
    requires Total(cfg, [Count] + Repeat(Addr, CountAt(cfg, p, 0))) == |p|
    ensures DecodedReadComp(cfg, txn, p).Ok?
  {
    TotalCounted(cfg, Addr, CountAt(cfg, p, 0));
  }

  lemma TiledWriteComp(cfg: Config, txn: byte, posted: bool, p: seq<byte>)
    requires Total(cfg, [Count] + RepeatPair(CountAt(cfg, p, 0))) == |p|
    ensures DecodedWriteComp(cfg, txn, posted, p).Ok?
  {
    TotalCountedPairs(cfg, CountAt(cfg, p, 0));
  }

  lemma TiledCommand(cfg: Config, txn: byte, t: byte, p: seq<byte>)
    requires t in {0x01, 0x10, 0x51, 0x04, 0x15, 0x54, 0x08, 0x19, 0x58, 0x20, 0x61}
    requires Total(cfg, Layout(cfg, t, p)) == |p|
    ensures DecodedCommandPayload(cfg, txn, t, p).Ok?
  {
    if t == 0x15 || t == 0x54 { TiledWriteSeq(cfg, txn, t == 0x54, p); }
    else if t == 0x08 { TiledReadComp(cfg, txn, p); }
    else if t == 0x19 || t == 0x58 { TiledWriteComp(cfg, txn, t == 0x58, p); }
    else { TiledFixed(cfg, txn, t, p); }
  }

  lemma TiledResponse(cfg: Config, txn: byte, t: byte, p: seq<byte>)
    requires t in {0x80, 0x85, 0x89, 0x91, 0x94, 0x98, 0xA1} || IsNakOrInterrupt(t)
    requires Total(cfg, Layout(cfg, t, p)) == |p|
    ensures DecodedResponsePayload(cfg, txn, t, p).Ok?
  {
    TotalFixed(cfg, Data, Data, Data);
    TotalFixed(cfg, Status, Data, Data);
    TotalCounted(cfg, Data, CountAt(cfg, p, 0));
  }

  /** Among the frames with a good CRC, the ones that the dissector shows without an error and without leftover payload
      are exactly the ones that a decoder accepts. */
  lemma TiledIffAccepted(cfg: Config, b: seq<byte>)
    requires cfg.Valid() && Unseal(cfg, b).Ok?
    ensures var d := Dissected(cfg, b);
            d.complete && Tiles(d.cuts, 0, d.payloadLen) <==> DecodedCommand(cfg, b).Ok? || DecodedResponse(cfg, b).Ok?
  {
    var p, t := Payload(cfg, b), b[1];
    if DecodedCommand(cfg, b).Ok? { CommandShown(cfg, b, DecodedCommand(cfg, b).value); }
    if DecodedResponse(cfg, b).Ok? { ResponseShown(cfg, b, DecodedResponse(cfg, b).value); }
    if Known(t) && Total(cfg, Layout(cfg, t, p)) <= |p| {
      SlicesTile(cfg, Layout(cfg, t, p), p, 0, |p|);
      if Total(cfg, Layout(cfg, t, p)) == |p| {
        if t in {0x01, 0x10, 0x51, 0x04, 0x15, 0x54, 0x08, 0x19, 0x58, 0x20, 0x61} {
          TiledCommand(cfg, b[0], t, p);
        } else {
          TiledResponse(cfg, b[0], t, p);
        }
      }
    }
  }
}
