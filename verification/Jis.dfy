/**
 The ISO-2022-JP converter of tcs: a byte-driven decoder with shift states, and an
 encoder whose shift state survives from call to call. The kuten table is data and
 enters as a parameter.
 */
module Jis {
  import opened Bytes

  type Rune = r: int | 0 <= r <= 0x10FFFF

  const ESC: byte := 27
  const KUTEN208MAX: nat := 8407
  const NRUNE: nat := 0x110000
  const BADMAP: Rune := 0xFFFD
  const BYTEBADMAP: byte := 63

  function Abs(l: int): nat {
    if l < 0 then -l else l
  }

  /** Rows have 94 cells, and every rune in the table lies beyond ASCII. */
  predicate WellFormed(t: seq<int>) {
    && |t| == KUTEN208MAX
    && forall k :: 0 <= k < |t| && t[k] != -1 ==> k % 100 < 96 && 128 <= Abs(t[k]) < NRUNE
  }

  // ----- the inverse table -----

  /** The last index below `n` whose entry stands for `r`, or -1. */
  function LastIndex(t: seq<int>, n: nat, r: Rune): (k: int)
    requires n <= |t|
    ensures -1 <= k < n
    ensures k >= 0 ==> t[k] != -1 && Abs(t[k]) == r
    ensures forall j :: k < j < n ==> t[j] == -1 || Abs(t[j]) != r
  {
    if n == 0 then -1
    else if t[n - 1] != -1 && Abs(t[n - 1]) == r then n - 1
    else LastIndex(t, n - 1, r)
  }

  /** `tab[r]`. */
  function Kuten(t: seq<int>, r: Rune): (k: int)
    ensures -1 <= k < |t|
    ensures k >= 0 ==> t[k] != -1 && Abs(t[k]) == r
  {
    LastIndex(t, |t|, r)
  }

  method TabInit(t: seq<int>) returns (tab: array<int>)
    requires WellFormed(t)
    ensures fresh(tab) && tab.Length == NRUNE && forall r: Rune :: tab[r] == Kuten(t, r)
  {
    tab := new int[NRUNE](_ => -1);
    for i := 0 to KUTEN208MAX
      invariant forall r: Rune :: tab[r] == LastIndex(t, i, r)
    {
      var l := t[i];
      if l != -1 {
        tab[if l < 0 then -l else l] := i;
      }
    }
  }

  // ----- encoding -----

  datatype Shift = Ascii | Jp2022

  datatype Encoded = Encoded(shift: Shift, bytes: seq<byte>)

  predicate Mappable(t: seq<int>, r: Rune) {
    r < 128 || Kuten(t, r) != -1
  }

  predicate AllMappable(t: seq<int>, rs: seq<Rune>) {
    forall i :: 0 <= i < |rs| ==> Mappable(t, rs[i])
  }

  function EncodeRune(t: seq<int>, clean: bool, s: Shift, r: Rune): Encoded
    requires WellFormed(t)
  {
    if r < 128 then Encoded(Ascii, (if s == Jp2022 then [ESC, 40, 66] else []) + [r])
    else
      var k := Kuten(t, r);
      if k != -1 then
        Encoded(Jp2022, (if s == Jp2022 then [] else [ESC, 36, 66]) + [k / 100 + 32, k % 100 + 32])
      else Encoded(s, if clean then [] else [BYTEBADMAP])
  }

  function Encode(t: seq<int>, clean: bool, s: Shift, rs: seq<Rune>): Encoded
    requires WellFormed(t)
    decreases rs
  {
    if rs == [] then Encoded(s, [])
    else
      var e := EncodeRune(t, clean, s, rs[0]);
      var f := Encode(t, clean, e.shift, rs[1..]);
      Encoded(f.shift, e.bytes + f.bytes)
  }

  /** Splitting the runes over several calls changes nothing. */
  lemma {:induction false} EncodeSplit(t: seq<int>, clean: bool, s: Shift, a: seq<Rune>, b: seq<Rune>)
    requires WellFormed(t)
    ensures var e := Encode(t, clean, s, a);
            var f := Encode(t, clean, e.shift, b);
            Encode(t, clean, s, a + b) == Encoded(f.shift, e.bytes + f.bytes)
    decreases a
  {
    if a == [] {
      assert a + b == b;
    } else {
      assert (a + b)[1..] == a[1..] + b;
      EncodeSplit(t, clean, EncodeRune(t, clean, s, a[0]).shift, a[1..], b);
    }
  }

  /** The encoder object: its shift state is static. */
  class Encoder {
    const t: seq<int>
    const clean: bool
    const tab: array<int>
    var shift: Shift

    ghost predicate Valid()
      reads this, tab
    {
      WellFormed(t) && tab.Length == NRUNE && forall r: Rune :: tab[r] == Kuten(t, r)
    }

    constructor (t: seq<int>, clean: bool)
      requires WellFormed(t)
      ensures Valid() && this.t == t && this.clean == clean && shift == Ascii
    {
      this.t := t;
      this.clean := clean;
      var inverse := TabInit(t);
      tab := inverse;
      shift := Ascii;
    }

    /** One call of `jisjis_out`; the result is what it writes. */
    method JisjisOut(base: seq<Rune>) returns (obuf: seq<byte>)
      requires Valid()
      modifies this`shift
      ensures Valid() && Encode(t, clean, old(shift), base) == Encoded(shift, obuf)
    {
      hide EncodeRune, Kuten;
      obuf := [];
      for i := 0 to |base|
        invariant Valid() && Encode(t, clean, old(shift), base[..i]) == Encoded(shift, obuf)
      {
        EncodeSplit(t, clean, old(shift), base[..i], [base[i]]);
        EncodeOne(t, clean, shift, base[i]);
        assert base[..i + 1] == base[..i] + [base[i]];
        var bytes := OutRune(base[i]);
        obuf := obuf + bytes;
      }
      assert base[..|base|] == base;
    }

    /** One rune, with the shift it needs. */
    method OutRune(r: Rune) returns (bytes: seq<byte>)
      requires Valid()
      modifies this`shift
      ensures Valid() && Encoded(shift, bytes) == EncodeRune(t, clean, old(shift), r)
    {
      hide Kuten;
      bytes := [];
      if r < 128 {
        if shift == Jp2022 {
          bytes := bytes + [ESC, 40, 66];
          shift := Ascii;
        }
        bytes := bytes + [r];
      } else if tab[r] != -1 {
        if shift != Jp2022 {
          bytes := bytes + [ESC, 36, 66];
          shift := Jp2022;
        }
        bytes := bytes + [tab[r] / 100 + 32, tab[r] % 100 + 32];
      } else if !clean {
        bytes := bytes + [BYTEBADMAP];
      }
    }
  }

  lemma EncodeOne(t: seq<int>, clean: bool, s: Shift, r: Rune)
    requires WellFormed(t)
    ensures Encode(t, clean, s, [r]) == EncodeRune(t, clean, s, r)
  {
    assert [r][1..] == [];
  }

  // ----- decoding -----

  datatype Dec = Dec(state: nat, set8: bool, japan646: bool, lastc: byte)

  const START := Dec(0, false, false, 0)

  datatype Emitted = Emitted(dec: Dec, runes: seq<Rune>)

  /** A byte, or -1 at the end of the input. */
  type Input = c: int | -1 <= c < 256

  /** `state0`. */
  function Idle(d: Dec, c: Input): Emitted {
    if c == ESC then Emitted(d.(state := 1), [])
    else if c < 0 then Emitted(d, [])
    else if !d.set8 && c < 128 then
      Emitted(d, [if d.japan646 && c == 92 then 0xA5 else if d.japan646 && c == 126 then 0xAF else c])
    else Emitted(d.(state := 4, lastc := c), [])
  }

  /** The rune of a two-byte character. An index below the table counts as unmapped. */
  function Pair(t: seq<int>, clean: bool, hi: byte, lo: byte): (runes: seq<Rune>)
    requires WellFormed(t)
    ensures |runes| <= 1
  {
    var n := hi % 128 * 100 + lo % 128 - 3232;
    if n < 0 || n >= KUTEN208MAX || t[n] == -1 then (if clean then [] else [BADMAP])
    else [Abs(t[n])]
  }

  /** One call of `jis`; a state that does not know the byte hands it to `state0`. */
  function Step(t: seq<int>, clean: bool, d: Dec, c: Input): Emitted
    requires WellFormed(t)
  {
    var d0 := d.(state := 0);
    var idle := Idle(d0, c);
    match d.state
    case 0 => idle
    case 1 =>
      if c == 36 then Emitted(d.(state := 2), [])
      else if c == 40 then Emitted(d.(state := 3), [])
      else Emitted(idle.dec, [ESC] + idle.runes)
    case 2 =>
      if c == 64 || c == 66 then Emitted(d0.(set8 := true), [])
      else Emitted(idle.dec, [ESC, 36] + idle.runes)
    case 3 =>
      if c == 74 || c == 72 || c == 66 then Emitted(d0.(set8 := false, japan646 := c == 74), [])
      else Emitted(idle.dec, [ESC, 40] + idle.runes)
    case _ =>
      var c' := if c >= 0 then c else if d.lastc >= 128 then 33 + 128 else 33;
      if (d.lastc >= 128) != (c' >= 128) then Emitted(Idle(d0, c').dec, [d.lastc] + Idle(d0, c').runes)
      else Emitted(d0, Pair(t, clean, d.lastc, c'))
  }

  function Decode(t: seq<int>, clean: bool, d: Dec, bs: seq<byte>): Emitted
    requires WellFormed(t)
    decreases bs
  {
    if bs == [] then Emitted(d, [])
    else
      var e := Step(t, clean, d, bs[0]);
      var f := Decode(t, clean, e.dec, bs[1..]);
      Emitted(f.dec, e.runes + f.runes)
  }

  /** All runes delivered for `bs`, including what the end of the input brings out. */
  function Finish(t: seq<int>, clean: bool, d: Dec, bs: seq<byte>): seq<Rune>
    requires WellFormed(t)
  {
    var e := Decode(t, clean, d, bs);
    e.runes + Step(t, clean, e.dec, -1).runes
  }

  /** Splitting the bytes into blocks changes nothing. */
  lemma {:induction false} DecodeSplit(t: seq<int>, clean: bool, d: Dec, a: seq<byte>, b: seq<byte>)
    requires WellFormed(t)
    ensures var e := Decode(t, clean, d, a);
            var f := Decode(t, clean, e.dec, b);
            Decode(t, clean, d, a + b) == Emitted(f.dec, e.runes + f.runes)
    decreases a
  {
    hide Step, WellFormed;
    if a == [] {
      assert a + b == b;
    } else {
      assert (a + b)[1..] == a[1..] + b;
      DecodeSplit(t, clean, Step(t, clean, d, a[0]).dec, a[1..], b);
    }
  }

  lemma FinishSplit(t: seq<int>, clean: bool, d: Dec, a: seq<byte>, b: seq<byte>)
    requires WellFormed(t)
    ensures var e := Decode(t, clean, d, a);
            Finish(t, clean, d, a + b) == e.runes + Finish(t, clean, e.dec, b)
  {
    DecodeSplit(t, clean, d, a, b);
  }

  /** One call never emits more than three runes, which is what `re = ob+N-3` relies on. */
  lemma StepEmitsAtMostThree(t: seq<int>, clean: bool, d: Dec, c: Input)
    requires WellFormed(t)
    ensures |Step(t, clean, d, c).runes| <= 3
  {
  }

  // ----- what the decoder makes of text in each set -----

  /** JIS-Roman is ASCII but for the yen sign and the macron. */
  function Roman(bs: seq<byte>): (rs: seq<Rune>)
    ensures |rs| == |bs|
    ensures forall k :: 0 <= k < |bs| ==> rs[k] == if bs[k] == '\\' as int then 0xA5 else if bs[k] == '~' as int then 0xAF else bs[k]
  {
    seq(|bs|, k requires 0 <= k < |bs| => if bs[k] == 92 then 0xA5 else if bs[k] == 126 then 0xAF else bs[k])
  }

  predicate PlainBytes(bs: seq<byte>) {
    forall k :: 0 <= k < |bs| ==> bs[k] < 128 && bs[k] != ESC
  }

  lemma {:induction false} SingleBytes(t: seq<int>, clean: bool, d: Dec, bs: seq<byte>)
    requires WellFormed(t) && d.state == 0 && !d.set8 && PlainBytes(bs)
    ensures Decode(t, clean, d, bs) == Emitted(d, if d.japan646 then Roman(bs) else bs)
    decreases bs
  {
    hide Step, WellFormed, Roman;
    if bs == [] {
      assert Roman(bs) == [];
    } else {
      SingleByte(t, clean, d, bs[0]);
      SingleBytes(t, clean, d, bs[1..]);
      assert Roman(bs) == Roman([bs[0]]) + Roman(bs[1..]);
      assert bs == [bs[0]] + bs[1..];
    }
  }

  lemma SingleByte(t: seq<int>, clean: bool, d: Dec, c: byte)
    requires WellFormed(t) && d.state == 0 && !d.set8 && c < 128 && c != ESC
    ensures Step(t, clean, d, c) == Emitted(d, if d.japan646 then Roman([c]) else [c])
  {
    hide Pair;
    assert Roman([c]) == [Roman([c])[0]];
  }

  /** Text behind `ESC ( J` is JIS-Roman, behind `ESC ( B` and `ESC ( H` it is ASCII. */
  lemma TextBehindShift(t: seq<int>, clean: bool, d: Dec, final: byte, bs: seq<byte>)
    requires WellFormed(t) && d.state == 0 && final in {'J' as int, 'B' as int, 'H' as int} && PlainBytes(bs)
    ensures Decode(t, clean, d, [ESC, 40, final] + bs).runes == if final == 'J' as int then Roman(bs) else bs
  {
    hide PlainBytes, Roman;
    var e := Decode(t, clean, d, [ESC, 40, final]);
    assert e == Emitted(d.(state := 0, set8 := false, japan646 := final == 74), []) by {
      DecodeThree(t, clean, d, ESC, 40, final);
    }
    DecodeSplit(t, clean, d, [ESC, 40, final], bs);
    SingleBytes(t, clean, e.dec, bs);
    assert [] + bs == bs && [] + Roman(bs) == Roman(bs);
  }

  /** `ESC $ @` and `ESC $ B` both lead into the two-byte set. */
  lemma KanjiShift(t: seq<int>, clean: bool, d: Dec, final: byte)
    requires WellFormed(t) && d.state == 0 && final in {'@' as int, 'B' as int}
    ensures Decode(t, clean, d, [ESC, 36, final]) == Emitted(d.(set8 := true), [])
  {
    DecodeThree(t, clean, d, ESC, 36, final);
  }

  /** The rune of row and column, each counted from 0x20 with the top bit aside; what is not in the table is marked or dropped. */
  lemma PairExact(t: seq<int>, clean: bool, hi: byte, lo: byte)
    requires WellFormed(t)
    ensures var n := (hi % 128 - 0x20) * 100 + (lo % 128 - 0x20);
            Pair(t, clean, hi, lo) ==
              if 0 <= n < KUTEN208MAX && t[n] != -1 then [if t[n] < 0 then -t[n] else t[n]]
              else if clean then [] else [BADMAP]
  {
  }

  /** In any set two bytes with the top bit are one character; a byte without it behind one with it stands for itself. */
  lemma HighBytes(t: seq<int>, clean: bool, d: Dec, hi: byte, lo: byte)
    requires WellFormed(t) && d.state == 0 && hi >= 128
    ensures lo >= 128 ==> Decode(t, clean, d, [hi, lo]) == Emitted(d.(lastc := hi), Pair(t, clean, hi, lo))
    ensures lo < 128 && lo != ESC && !d.set8 ==>
              Decode(t, clean, d, [hi, lo]) == Emitted(d.(lastc := hi), [hi] + if d.japan646 then Roman([lo]) else [lo])
  {
    hide Pair;
    DecodeTwo(t, clean, d, hi, lo);
  }

  /** In the two-byte set a byte with the top bit behind one without it starts a character of its own. */
  lemma LowThenHigh(t: seq<int>, clean: bool, d: Dec, hi: byte, lo: byte)
    requires WellFormed(t) && d.state == 0 && d.set8 && hi < 128 && hi != ESC && lo >= 128
    ensures Decode(t, clean, d, [hi, lo]) == Emitted(d.(state := 4, lastc := lo), [hi])
  {
    DecodeTwo(t, clean, d, hi, lo);
  }

  /** A character cut short by the end of the input is completed with the first column of its row. */
  lemma CutShort(t: seq<int>, clean: bool, d: Dec, hi: byte)
    requires WellFormed(t) && d.state == 0 && hi != ESC && (d.set8 || hi >= 128)
    ensures Finish(t, clean, d, [hi]) == Pair(t, clean, hi, if hi >= 128 then 0xA1 else 0x21)
  {
    hide Pair;
    DecodeTwo(t, clean, d, hi, hi);
    assert forall v: seq<Rune> :: [] + v == v;
  }

  /** A rune that has no code is marked or dropped, and the shift state stays. */
  lemma UnmappedRune(t: seq<int>, clean: bool, s: Shift, r: Rune)
    requires WellFormed(t) && r >= 128 && !Mappable(t, r)
    ensures EncodeRune(t, clean, s, r) == Encoded(s, if clean then [] else [BYTEBADMAP])
  {
  }

  // ----- the round trip -----

  /** Three runes that the decoder takes for a shift when they occur as text. */
  predicate ShiftAt(w: seq<Rune>, i: nat) {
    && i + 2 < |w| && w[i] == ESC
    && ((w[i + 1] == 36 && w[i + 2] in {64, 66}) || (w[i + 1] == 40 && w[i + 2] in {74, 72, 66}))
  }

  ghost predicate HasShiftText(w: seq<Rune>) {
    exists i: nat :: ShiftAt(w, i)
  }

  /** Undelivered text that the decoder holds back as the start of a possible shift. */
  function Held(d: Dec): seq<Rune> {
    if d.state == 1 then [ESC] else if d.state == 2 then [ESC, 36] else if d.state == 3 then [ESC, 40] else []
  }

  /** The decoder understands what the encoder will write next. */
  predicate InStep(s: Shift, d: Dec) {
    && d.state < 4
    && d.set8 == (s == Jp2022) && !d.japan646
    && (s == Jp2022 ==> d.state == 0)
  }

  /** The decoder may have taken text for a shift; then it has swallowed runes. */
  predicate MayDrift(s: Shift, d: Dec) {
    && d.state <= 4
    && (s == Jp2022 ==> d.state == 0 && d.set8)
    && (d.state == 4 ==> d.set8 && d.lastc < 128)
  }

  /** How many more runes than it will be given a drifting decoder can still emit. */
  function Excess(s: Shift, d: Dec): nat {
    if s == Jp2022 then 0
    else (if d.set8 then 1 else 0) + match d.state case 0 => 0 case 1 => 1 case 4 => 1 case _ => 2
  }

  lemma PairOfRune(t: seq<int>, clean: bool, r: Rune)
    requires WellFormed(t) && r >= 128 && Kuten(t, r) != -1
    ensures var k := Kuten(t, r);
            k / 100 + 32 < 128 && k % 100 + 32 < 128 && Pair(t, clean, k / 100 + 32, k % 100 + 32) == [r]
  {
    var k := Kuten(t, r);
    assert (k / 100 + 32) % 128 * 100 + (k % 100 + 32) % 128 - 3232 == k;
  }

  lemma DecodeTwo(t: seq<int>, clean: bool, d: Dec, a: byte, b: byte)
    requires WellFormed(t)
    ensures var e := Step(t, clean, d, a);
            var f := Step(t, clean, e.dec, b);
            && Decode(t, clean, d, [a]) == e
            && Decode(t, clean, d, [a, b]) == Emitted(f.dec, e.runes + f.runes)
  {
    hide Step;
    assert [a][1..] == [] && [a, b][1..] == [b] && [b][1..] == [];
    assert Decode(t, clean, Step(t, clean, d, a).dec, [b]) == Step(t, clean, Step(t, clean, d, a).dec, b);
  }

  lemma DecodeThree(t: seq<int>, clean: bool, d: Dec, a: byte, b: byte, c: byte)
    requires WellFormed(t)
    ensures var e := Step(t, clean, d, a);
            var f := Step(t, clean, e.dec, b);
            var g := Step(t, clean, f.dec, c);
            Decode(t, clean, d, [a, b, c]) == Emitted(g.dec, e.runes + f.runes + g.runes)
  {
    hide Step;
    assert [a, b, c] == [a, b] + [c];
    DecodeTwo(t, clean, d, a, b);
    DecodeSplit(t, clean, d, [a, b], [c]);
    DecodeTwo(t, clean, Step(t, clean, Step(t, clean, d, a).dec, b).dec, c, c);
  }

  /** What the encoder writes before a rune to change its shift state. */
  function Prelude(s: Shift, r: Rune): seq<byte> {
    if r < 128 then (if s == Jp2022 then [ESC, 40, 66] else [])
    else if s == Jp2022 then [] else [ESC, 36, 66]
  }

  /** After the prelude a decoder in step is at rest in the right set; a drifting one has paid for what it emitted. */
  lemma DecodePrelude(t: seq<int>, clean: bool, s: Shift, d: Dec, r: Rune)
    requires WellFormed(t) && MayDrift(s, d)
    ensures var e := Decode(t, clean, d, Prelude(s, r));
            && (r < 128 && s == Ascii ==> e == Emitted(d, []))
            && (r < 128 && s == Jp2022 ==> e == Emitted(Dec(0, false, false, d.lastc), []))
            && (r >= 128 ==> e.dec.state == 0 && e.dec.set8 && |e.runes| <= Excess(s, d))
            && (r >= 128 && InStep(s, d) ==> e == Emitted(d.(state := 0, set8 := true), Held(d)))
  {
    if Prelude(s, r) != [] {
      DecodeThree(t, clean, d, ESC, Prelude(s, r)[1], 66);
    }
  }

  lemma RuneCount(t: seq<int>, clean: bool, ec: bool, s: Shift, d: Dec, r: Rune)
    requires WellFormed(t) && MayDrift(s, d) && Mappable(t, r)
    ensures var e := EncodeRune(t, ec, s, r);
            var f := Decode(t, clean, d, e.bytes);
            MayDrift(e.shift, f.dec) && |f.runes| + Excess(e.shift, f.dec) <= 1 + Excess(s, d)
  {
    DecodeBody(t, clean, ec, s, d, r);
    DecodePrelude(t, clean, s, d, r);
  }

  /** The body of a rune, after its prelude. */
  lemma DecodeBody(t: seq<int>, clean: bool, ec: bool, s: Shift, d: Dec, r: Rune)
    requires WellFormed(t) && MayDrift(s, d) && Mappable(t, r)
    ensures var e := EncodeRune(t, ec, s, r);
            var p := Decode(t, clean, d, Prelude(s, r));
            var f := Decode(t, clean, d, e.bytes);
            if r < 128 then
              f == Emitted(Step(t, clean, p.dec, r).dec, p.runes + Step(t, clean, p.dec, r).runes)
            else f.dec.state == 0 && f.dec.set8 && f.dec.japan646 == p.dec.japan646 && f.runes == p.runes + [r]
  {
    hide Pair, Step, Decode, WellFormed;
    var p := Decode(t, clean, d, Prelude(s, r));
    DecodePrelude(t, clean, s, d, r);
    if r < 128 {
      DecodeSplit(t, clean, d, Prelude(s, r), [r]);
      DecodeTwo(t, clean, p.dec, r, r);
    } else {
      var k := Kuten(t, r);
      PairOfRune(t, clean, r);
      DecodeSplit(t, clean, d, Prelude(s, r), [k / 100 + 32, k % 100 + 32]);
      DecodePair(t, clean, p.dec, k / 100 + 32, k % 100 + 32);
    }
  }

  /** A decoder at rest in the two-byte set takes a pair. */
  lemma DecodePair(t: seq<int>, clean: bool, d: Dec, hi: byte, lo: byte)
    requires WellFormed(t) && d.state == 0 && d.set8 && 32 <= hi < 128 && lo < 128
    ensures var f := Decode(t, clean, d, [hi, lo]);
            f.dec.state == 0 && f.dec.set8 && f.dec.japan646 == d.japan646 && f.runes == Pair(t, clean, hi, lo)
  {
    hide Pair;
    DecodeTwo(t, clean, d, hi, lo);
  }

  /** No decoder, drifting or not, delivers more runes than it was given plus its excess. */
  lemma {:induction false} TotalCount(t: seq<int>, clean: bool, ec: bool, s: Shift, d: Dec, rs: seq<Rune>)
    requires WellFormed(t) && MayDrift(s, d) && AllMappable(t, rs)
    ensures |Finish(t, clean, d, Encode(t, ec, s, rs).bytes)| <= |rs| + Excess(s, d)
    decreases rs
  {
    if rs != [] {
      hide EncodeRune, MayDrift, Excess, Step, Kuten;
      var e := EncodeRune(t, ec, s, rs[0]);
      var f := Decode(t, clean, d, e.bytes);
      RuneCount(t, clean, ec, s, d, rs[0]);
      TotalCount(t, clean, ec, e.shift, f.dec, rs[1..]);
      FinishSplit(t, clean, d, e.bytes, Encode(t, ec, e.shift, rs[1..]).bytes);
    }
  }

  /** One rune read by a decoder in step: it completes a shift text, or text is delivered faithfully. */
  lemma RuneExact(t: seq<int>, clean: bool, ec: bool, s: Shift, d: Dec, r: Rune)
    requires WellFormed(t) && InStep(s, d) && Mappable(t, r)
    ensures var e := EncodeRune(t, ec, s, r);
            var f := Decode(t, clean, d, e.bytes);
            if ShiftAt(Held(d) + [r], 0) then
              f.runes == [] && MayDrift(e.shift, f.dec) && Excess(e.shift, f.dec) <= 1
            else InStep(e.shift, f.dec) && f.runes + Held(f.dec) == Held(d) + [r]
                 && |f.runes| == Delivered(Held(d), r)
  {
    hide Decode, Pair, Kuten;
    DecodeBody(t, clean, ec, s, d, r);
    DecodePrelude(t, clean, s, d, r);
  }

  /** How much of held text and a new rune is delivered. */
  function Delivered(w: seq<Rune>, r: Rune): nat {
    if r == ESC then |w| else if w == [ESC] && (r == 36 || r == 40) then 0 else |w| + 1
  }

  /** Text that has been delivered is not the start of a shift text. */
  lemma DeliveredStartsNoShift(w: seq<Rune>, r: Rune, rest: seq<Rune>)
    requires w == [] || w == [ESC] || w == [ESC, 36] || w == [ESC, 40]
    requires !ShiftAt(w + [r], 0)
    ensures HasShiftText(w + [r] + rest) <==> HasShiftText((w + [r] + rest)[Delivered(w, r)..])
  {
    var all := w + [r] + rest;
    var n := Delivered(w, r);
    forall i: nat | i < n
      ensures !ShiftAt(all, i)
    {
      assert |w| == 0 ==> all[0] == r;
      assert |w| == 1 ==> all[0] == ESC && all[1] == r;
      assert |w| == 2 ==> all[0] == ESC && all[1] == w[1] && all[2] == r && (w + [r])[2] == r;
    }
    DropNoShift(all, n);
  }

  lemma DropNoShift(all: seq<Rune>, n: nat)
    requires n <= |all| && forall i: nat :: i < n ==> !ShiftAt(all, i)
    ensures HasShiftText(all) <==> HasShiftText(all[n..])
  {
    if i: nat :| ShiftAt(all, i) {
      assert ShiftAt(all[n..], i - n);
    }
    if i: nat :| ShiftAt(all[n..], i) {
      assert ShiftAt(all, i + n);
    }
  }

  lemma ShiftFirst(w: seq<Rune>, r: Rune, rest: seq<Rune>)
    requires ShiftAt(w + [r], 0)
    ensures |w| >= 2 && HasShiftText(w + [r] + rest)
  {
    assert ShiftAt(w + [r] + rest, 0);
  }

  /**
   A decoder in step delivers its held text and all runes if no shift text occurs among
   them, and otherwise delivers fewer runes than there are.
   */
  lemma {:induction false} InStepRoundTrip(t: seq<int>, clean: bool, ec: bool, s: Shift, d: Dec, rs: seq<Rune>)
    requires WellFormed(t) && InStep(s, d) && AllMappable(t, rs)
    ensures var out := Finish(t, clean, d, Encode(t, ec, s, rs).bytes);
            if HasShiftText(Held(d) + rs) then |out| < |Held(d) + rs| else out == Held(d) + rs
    decreases rs
  {
    hide EncodeRune, MayDrift, Step, InStep, Kuten, Finish, Decode, Delivered, HasShiftText, Excess, ShiftAt, Held, Encode, WellFormed;
    if rs == [] {
      NothingMore(t, clean, ec, s, d);
      assert Held(d) + rs == Held(d);
    } else {
      var w, r, rest := Held(d), rs[0], rs[1..];
      var e := EncodeRune(t, ec, s, r);
      var f := Decode(t, clean, d, e.bytes);
      RuneExact(t, clean, ec, s, d, r);
      FinishFirst(t, clean, ec, s, d, rs);
      assert w + rs == w + [r] + rest;
      if ShiftAt(w + [r], 0) {
        ShiftFirst(w, r, rest);
        TotalCount(t, clean, ec, e.shift, f.dec, rest);
      } else {
        InStepRoundTrip(t, clean, ec, e.shift, f.dec, rest);
        HeldText(d);
        DeliveredStartsNoShift(w, r, rest);
        DropDelivered(f.runes, Held(f.dec), w, r, rest);
      }
    }
  }

  /** The first rune's bytes, then the rest. */
  lemma FinishFirst(t: seq<int>, clean: bool, ec: bool, s: Shift, d: Dec, rs: seq<Rune>)
    requires WellFormed(t) && rs != []
    ensures var e := EncodeRune(t, ec, s, rs[0]);
            var f := Decode(t, clean, d, e.bytes);
            Finish(t, clean, d, Encode(t, ec, s, rs).bytes) ==
            f.runes + Finish(t, clean, f.dec, Encode(t, ec, e.shift, rs[1..]).bytes)
  {
    hide EncodeRune, Finish, Decode;
    var e := EncodeRune(t, ec, s, rs[0]);
    FinishSplit(t, clean, d, e.bytes, Encode(t, ec, e.shift, rs[1..]).bytes);
  }

  lemma HeldText(d: Dec)
    ensures Held(d) == [] || Held(d) == [ESC] || Held(d) == [ESC, 36] || Held(d) == [ESC, 40]
  {
  }

  lemma DropDelivered(done: seq<Rune>, held: seq<Rune>, w: seq<Rune>, r: Rune, rest: seq<Rune>)
    requires done + held == w + [r]
    ensures w + [r] + rest == done + (held + rest) && (w + [r] + rest)[|done|..] == held + rest
  {
    assert done + held + rest == done + (held + rest);
  }

  /** At the end of the input a decoder in step gives up the text it held. */
  lemma NothingMore(t: seq<int>, clean: bool, ec: bool, s: Shift, d: Dec)
    requires WellFormed(t) && InStep(s, d)
    ensures Finish(t, clean, d, Encode(t, ec, s, []).bytes) == Held(d) && !HasShiftText(Held(d))
  {
  }

  /**
   The round trip: decoding what the encoder writes gives the runes back if and only if
   the text does not itself spell a shift sequence.
   */
  lemma RoundTrip(t: seq<int>, clean: bool, ec: bool, rs: seq<Rune>)
    requires WellFormed(t) && AllMappable(t, rs)
    ensures Finish(t, clean, START, Encode(t, ec, Ascii, rs).bytes) == rs <==> !HasShiftText(rs)
  {
    InStepRoundTrip(t, clean, ec, Ascii, START, rs);
    assert Held(START) + rs == rs;
  }

  /** RFC 1468 wants text to end in ASCII; the encoder leaves it so exactly when the last rune is ASCII. */
  lemma {:induction false} EndsInAscii(t: seq<int>, ec: bool, s: Shift, rs: seq<Rune>)
    requires WellFormed(t) && AllMappable(t, rs) && rs != []
    ensures Encode(t, ec, s, rs).shift == Ascii <==> rs[|rs| - 1] < 128
    decreases rs
  {
    if |rs| > 1 {
      EndsInAscii(t, ec, EncodeRune(t, ec, s, rs[0]).shift, rs[1..]);
    } else {
      assert rs == [rs[0]];
      EncodeOne(t, ec, s, rs[0]);
      assert Mappable(t, rs[0]);
    }
  }

  // ----- the block reader -----

  const N: nat := 10000

  /** All blocks run together. */
  function Blocks(blocks: seq<seq<byte>>): seq<byte> {
    if blocks == [] then [] else blocks[0] + Blocks(blocks[1..])
  }

  /** The decoder object: its state is static. */
  class Decoder {
    const t: seq<int>
    const clean: bool
    var dec: Dec
    const ob: array<Rune>
    var r: nat

    ghost predicate Valid()
      reads this
    {
      WellFormed(t) && ob.Length == N && r <= N - 3
    }

    constructor (t: seq<int>, clean: bool)
      requires WellFormed(t)
      ensures Valid() && this.t == t && this.clean == clean && dec == START && r == 0 && fresh(ob)
    {
      this.t := t;
      this.clean := clean;
      dec := START;
      ob := new Rune[N](_ => 0);
      r := 0;
    }

    /** One call of `jis`: the runes go into the buffer, which has room for them. */
    method Put(c: Input)
      requires Valid()
      modifies this`dec, this`r, ob
      ensures WellFormed(t) && r <= N
      ensures var e := Step(t, clean, old(dec), c);
              dec == e.dec && ob[..r] == old(ob[..r]) + e.runes
    {
      var e := Step(t, clean, dec, c);
      StepEmitsAtMostThree(t, clean, dec, c);
      hide Step;
      dec := e.dec;
      forall k | 0 <= k < |e.runes| {
        ob[r + k] := e.runes[k];
      }
      r := r + |e.runes|;
    }

    /**
     `do_in`: however the input is cut into blocks, the runes handed on are those of the
     whole input, and the buffer never overflows.
     */
    method DoIn(blocks: seq<seq<byte>>) returns (out: seq<Rune>)
      requires Valid() && dec == START && r == 0
      modifies this`dec, this`r, ob
      ensures out == Finish(t, clean, START, Blocks(blocks))
    {
      hide Step;
      out := [];
      ghost var seen := [];
      assert Decode(t, clean, START, []) == Emitted(START, []);
      for b := 0 to |blocks|
        invariant Valid() && r == 0 && seen + Blocks(blocks[b..]) == Blocks(blocks)
        invariant Decode(t, clean, START, seen) == Emitted(dec, out)
      {
        var more := Block(blocks[b], seen, out);
        out := out + more;
        seen := seen + blocks[b];
        assert blocks[b..][1..] == blocks[b + 1..];
      }
      assert seen == Blocks(blocks);
      Put(-1);
      out := out + ob[..r];
    }

    /** One block, with a flush whenever fewer than three places are left and at its end. */
    method Block(block: seq<byte>, ghost seen: seq<byte>, ghost sent: seq<Rune>) returns (out: seq<Rune>)
      requires Valid() && r == 0 && Decode(t, clean, START, seen) == Emitted(dec, sent)
      modifies this`dec, this`r, ob
      ensures Valid() && r == 0 && Decode(t, clean, START, seen + block) == Emitted(dec, sent + out)
    {
      hide Step, Decode;
      out := [];
      assert seen + block[..0] == seen;
      for i := 0 to |block|
        invariant Valid() && Decode(t, clean, START, seen + block[..i]) == Emitted(dec, sent + out + ob[..r])
      {
        ghost var d, had := dec, sent + out + ob[..r];
        Put(block[i]);
        assert had + Step(t, clean, d, block[i]).runes == sent + out + ob[..r];
        DecodeSplit(t, clean, START, seen + block[..i], [block[i]]);
        DecodeTwo(t, clean, d, block[i], block[i]);
        assert seen + block[..i] + [block[i]] == seen + block[..i + 1];
        if r >= N - 3 {
          out := out + ob[..r];
          r := 0;
        }
        assert sent + out + ob[..r] == had + Step(t, clean, d, block[i]).runes;
      }
      assert block[..|block|] == block;
      out := out + ob[..r];
      r := 0;
    }
  }
}
