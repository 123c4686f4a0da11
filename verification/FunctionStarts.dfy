/**
 The LC_FUNCTION_STARTS table of a 32-bit ARM image, rewritten for a debugger that
 clears the Thumb bit from its running address.

 The table is a list of ULEB128 deltas ended by a zero.  The linker accumulates
 addresses whose low bit says Thumb.
 */
module FunctionStarts {
  import opened Wrappers
  import opened BigEndian

  const U32: nat := 0x1_0000_0000
  const U64: nat := 0x1_0000_0000_0000_0000

  // ----- ULEB128 -----------------------------------------------------------------------

  function Weigh(payload: nat, unit: nat): nat {
    payload * unit
  }

  /** The payload would not fit in 64 bits. */
  predicate Overflows(payload: nat, unit: nat)
    requires unit > 0
  {
    payload > (U64 - 1) / unit
  }

  /** Reads on from `at`, where the next seven bits weigh `unit`. */
  function ReadOn(data: Bytes, at: nat, unit: nat, sum: nat): (r: Option<(nat, nat)>)
    requires unit > 0
    ensures r.Some? ==> at < r.value.1 <= |data|
    decreases |data| - at
  {
    if at >= |data| || unit >= U64 then None
    else
      var payload := data[at] as nat % 128;
      if Overflows(payload, unit) then None
      else if data[at] as nat < 128 then Some((sum + Weigh(payload, unit), at + 1))
      else ReadOn(data, at + 1, unit * 128, sum + Weigh(payload, unit))
  }

  function EncodeULEB(v: nat): (b: Bytes)
    ensures |b| > 0
  {
    if v < 128 then [v as byte] else [(v % 128 + 128) as byte] + EncodeULEB(v / 128)
  }

  method ReadULEB(data: Bytes, from: nat) returns (r: Option<(nat, nat)>)
    ensures r == ReadOn(data, from, 1, 0)
  {
    hide Weigh, Overflows;
    var at: nat, unit: nat, sum: nat := from, 1, 0;
    while true
      invariant unit > 0 && ReadOn(data, at, unit, sum) == ReadOn(data, from, 1, 0)
      decreases |data| - at
    {
      if at >= |data| || unit >= U64 { return None; }
      var payload := data[at] as nat % 128;
      if Overflows(payload, unit) { return None; }
      sum := sum + Weigh(payload, unit);
      at := at + 1;
      if data[at - 1] as nat < 128 { return Some((sum, at)); }
      unit := unit * 128;
    }
  }

  method AppendULEB(out: Bytes, value: nat) returns (r: Bytes)
    ensures r == out + EncodeULEB(value)
  {
    r := out;
    var v := value;
    while v >= 128
      invariant r + EncodeULEB(v) == out + EncodeULEB(value)
    {
      assert r + [(v % 128 + 128) as byte] + EncodeULEB(v / 128)
             == r + ([(v % 128 + 128) as byte] + EncodeULEB(v / 128));
      r := r + [(v % 128 + 128) as byte];
      v := v / 128;
    }
    r := r + [v as byte];
  }

  /** The split of a value into its low seven bits and the rest, in units. */
  lemma SplitValue(v: nat, unit: nat)
    requires unit > 0
    ensures Weigh(v, unit) == Weigh(v % 128, unit) + Weigh(v / 128, unit * 128)
    ensures Weigh(v, 1) == v
    ensures v >= 1 ==> unit <= Weigh(v, unit)
  {
    assert v == v % 128 + 128 * (v / 128);
    assert v * unit == v % 128 * unit + 128 * (v / 128) * unit;
  }

  lemma PayloadFits(p: nat, unit: nat)
    requires unit > 0 && Weigh(p, unit) < U64
    ensures !Overflows(p, unit)
  {
    var q := (U64 - 1) / unit;
    assert U64 - 1 == q * unit + (U64 - 1) % unit;
    assert p >= q + 1 ==> p * unit >= (q + 1) * unit;
  }

  /** The first byte of an encoding, and what follows it. */
  lemma FirstByte(v: nat)
    ensures var e := EncodeULEB(v);
      && e[0] as nat % 128 == v % 128 && (e[0] as nat < 128 <==> v < 128)
      && e[1..] == if v < 128 then [] else EncodeULEB(v / 128)
  {
  }

  lemma PieceAt(data: Bytes, at: nat, e: Bytes)
    requires |e| > 0 && at + |e| <= |data| && data[at..at + |e|] == e
    ensures data[at] == e[0] && data[at + 1..at + |e|] == e[1..]
  {
    assert data[at] == data[at..at + |e|][0];
    assert data[at + 1..at + |e|] == data[at..at + |e|][1..];
  }

  /** What is encoded is read back, whatever surrounds it. */
  lemma {:induction false} ReadEncoded(v: nat, data: Bytes, at: nat, unit: nat, sum: nat)
    requires 0 < unit < U64 && Weigh(v, unit) < U64
    requires at + |EncodeULEB(v)| <= |data| && data[at..at + |EncodeULEB(v)|] == EncodeULEB(v)
    ensures ReadOn(data, at, unit, sum) == Some((sum + Weigh(v, unit), at + |EncodeULEB(v)|))
    decreases v
  {
    hide Weigh, Overflows, EncodeULEB;
    SplitValue(v, unit);
    PayloadFits(v % 128, unit);
    FirstByte(v);
    PieceAt(data, at, EncodeULEB(v));
    if v >= 128 {
      SplitValue(v / 128, unit * 128);
      ReadEncoded(v / 128, data, at + 1, unit * 128, sum + Weigh(v % 128, unit));
    } else {
      NoRest(v, unit);
    }
  }

  lemma NoRest(v: nat, unit: nat)
    requires v < 128
    ensures Weigh(v % 128, unit) == Weigh(v, unit)
  {
  }

  // ----- What a group of bytes stands for -------------------------------------------------

  /** Seven bits a byte, the lowest first. */
  function Value(group: Bytes): nat {
    if group == [] then 0 else group[0] as nat % 128 + 128 * Value(group[1..])
  }

  /** The high bit says that another byte follows. */
  predicate IsGroup(group: Bytes) {
    && group != [] && group[|group| - 1] < 128
    && forall i :: 0 <= i < |group| - 1 ==> group[i] >= 128
  }

  /** How many more bytes a value may take when the next one weighs `unit`. */
  predicate Weight(unit: nat, left: nat) {
    || (unit == 0x1 && left == 10) || (unit == 0x80 && left == 9) || (unit == 0x4000 && left == 8)
    || (unit == 0x20_0000 && left == 7) || (unit == 0x1000_0000 && left == 6) || (unit == 0x8_0000_0000 && left == 5)
    || (unit == 0x400_0000_0000 && left == 4) || (unit == 0x2_0000_0000_0000 && left == 3)
    || (unit == 0x100_0000_0000_0000 && left == 2) || (unit == 0x8000_0000_0000_0000 && left == 1)
    || (unit == 0x40_0000_0000_0000_0000 && left == 0)
  }

  lemma WeightNext(unit: nat, left: nat)
    requires Weight(unit, left) && left > 0
    ensures 0 < unit < U64 && Weight(unit * 128, left - 1)
  {
  }

  lemma WeightEnd(unit: nat)
    requires Weight(unit, 0)
    ensures unit >= U64
  {
  }

  /** 2^64 in units: a multiple of 128 until the last byte, where it is two. */
  lemma UnitsOf(unit: nat, left: nat) returns (c: nat)
    requires Weight(unit, left) && left > 0
    ensures unit > 0 && c * unit == U64 && (if left == 1 then c == 2 else c % 128 == 0 && c >= 128)
  {
    c := if left == 10 then 0x1_0000_0000_0000_0000 else if left == 9 then 0x200_0000_0000_0000
         else if left == 8 then 0x4_0000_0000_0000 else if left == 7 then 0x800_0000_0000
         else if left == 6 then 0x10_0000_0000 else if left == 5 then 0x2000_0000
         else if left == 4 then 0x40_0000 else if left == 3 then 0x8000
         else if left == 2 then 0x100 else 2;
  }

  lemma WeighIff(x: nat, unit: nat, c: nat)
    requires unit > 0 && c * unit == U64
    ensures Weigh(x, unit) >= U64 <==> x >= c
    ensures Overflows(x, unit) <==> x >= c
  {
    if x >= c { assert x * unit >= c * unit; } else { assert x * unit <= (c - 1) * unit; }
    assert (U64 - 1) / unit == c - 1 by {
      assert U64 - 1 == (c - 1) * unit + (unit - 1);
      OneQuotient(U64 - 1, unit, c - 1, unit - 1);
    }
  }

  lemma OneQuotient(x: nat, unit: nat, q: nat, rest: nat)
    requires unit > 0 && rest < unit && x == q * unit + rest
    ensures x / unit == q
  {
    var d := q - x / unit;
    assert d * unit == x % unit - rest;
  }

  /** Adding the low seven bits never makes a value too large that was not. */
  lemma LowBitsFit(unit: nat, left: nat, p: nat, v: nat)
    requires Weight(unit, left) && left > 0 && p < 128 && (left == 1 ==> v == 0)
    ensures unit > 0
    ensures Overflows(p, unit) || Weigh(v, unit * 128) >= U64 <==> Weigh(p + 128 * v, unit) >= U64
    ensures Weigh(p, unit) + Weigh(v, unit * 128) == Weigh(p + 128 * v, unit)
  {
    hide Weight, Overflows;
    var c := UnitsOf(unit, left);
    WeighIff(p, unit, c);
    WeighIff(p + 128 * v, unit, c);
    assert p * unit + v * (unit * 128) == (p + 128 * v) * unit;
    WeighIff(128 * v, unit, c);
    assert v * (unit * 128) == 128 * v * unit;
    Steps(p, v, c, left);
  }

  lemma Steps(p: nat, v: nat, c: nat, left: nat)
    requires p < 128 && (left == 1 ==> v == 0) && (if left == 1 then c == 2 else c % 128 == 0 && c >= 128)
    ensures p >= c || 128 * v >= c <==> p + 128 * v >= c
  {
    if left != 1 { assert c == 128 * (c / 128); }
  }

  lemma {:induction false} ReadGroup(data: Bytes, at: nat, group: Bytes, unit: nat, left: nat, sum: nat)
    requires IsGroup(group) && at + |group| <= |data| && data[at..at + |group|] == group && Weight(unit, left)
    ensures unit > 0 && ReadOn(data, at, unit, sum) ==
            if |group| <= left && Weigh(Value(group), unit) < U64
            then Some((sum + Weigh(Value(group), unit), at + |group|)) else None
    decreases |group|
  {
    hide Weigh, Overflows, Weight;
    if left == 0 {
      WeightEnd(unit);
    } else {
      WeightNext(unit, left);
      PieceAt(data, at, group);
      var p, rest := group[0] as nat % 128, group[1..];
      if |group| == 1 {
        LowBitsFit(unit, left, p, 0);
        NoWeight(unit * 128);
        assert Value(group) == p;
      } else {
        assert IsGroup(rest);
        ReadGroup(data, at + 1, rest, unit * 128, left - 1, sum + Weigh(p, unit));
        if left > 1 { LowBitsFit(unit, left, p, Value(rest)); }
      }
    }
  }

  lemma NoWeight(unit: nat)
    ensures Weigh(0, unit) == 0
  {
  }

  /** A number is read exactly if its group takes at most ten bytes and 64 bits hold it. */
  lemma ReadIff(data: Bytes, at: nat, group: Bytes)
    requires IsGroup(group) && at + |group| <= |data| && data[at..at + |group|] == group
    ensures ReadOn(data, at, 1, 0) ==
            if |group| <= 10 && Value(group) < 0x1_0000_0000_0000_0000 then Some((Value(group), at + |group|)) else None
  {
    ReadGroup(data, at, group, 1, 10, 0);
  }

  lemma {:induction false} EncodedIsGroup(v: nat)
    ensures IsGroup(EncodeULEB(v)) && Value(EncodeULEB(v)) == v
    ensures |EncodeULEB(v)| > 1 ==> EncodeULEB(v)[|EncodeULEB(v)| - 1] != 0
  {
    if v >= 128 {
      EncodedIsGroup(v / 128);
      FirstByte(v);
      var e, rest := EncodeULEB(v), EncodeULEB(v / 128);
      assert forall i :: 1 <= i < |e| ==> e[i] == rest[i - 1];
    }
  }

  // ----- The table ---------------------------------------------------------------------

  /** The deltas from `at` up to the zero that ends them. */
  function Deltas(data: Bytes, at: nat): (r: Option<seq<nat>>)
    ensures r.Some? ==> forall i :: 0 <= i < |r.value| ==> r.value[i] > 0
    decreases |data| - at
  {
    if at >= |data| then None
    else
      match ReadOn(data, at, 1, 0)
      case None => None
      case Some((delta, next)) =>
        if delta == 0 then Some([])
        else
          match Deltas(data, next)
          case None => None
          case Some(rest) => Some([delta] + rest)
  }

  function EncodeAll(deltas: seq<nat>): Bytes {
    if deltas == [] then [] else EncodeULEB(deltas[0]) + EncodeAll(deltas[1..])
  }

  /** A list of nonzero deltas and its terminator read back from any table they start. */
  lemma {:induction false} TableReadsBack(deltas: seq<nat>, data: Bytes, at: nat)
    requires forall i :: 0 <= i < |deltas| ==> 0 < deltas[i] < U64
    requires at + |EncodeAll(deltas)| < |data| && data[at..at + |EncodeAll(deltas)| + 1] == EncodeAll(deltas) + [0]
    ensures Deltas(data, at) == Some(deltas)
    decreases |deltas|
  {
    hide ReadOn, EncodeULEB;
    var all := EncodeAll(deltas) + [0];
    var whole := data[at..at + |all|];
    var first := if deltas == [] then 0 else deltas[0];
    var n := |EncodeULEB(first)|;
    assert EncodeULEB(0) == [0] by { ZeroIsOneByte(); }
    assert whole[..n] == data[at..at + n] && all[..n] == EncodeULEB(first);
    SplitValue(first, 1);
    ReadEncoded(first, data, at, 1, 0);
    if deltas != [] {
      assert whole[n..] == data[at + n..at + |all|] && all[n..] == EncodeAll(deltas[1..]) + [0];
      TableReadsBack(deltas[1..], data, at + n);
      assert [deltas[0]] + deltas[1..] == deltas;
    }
  }

  lemma ZeroIsOneByte()
    ensures EncodeULEB(0) == [0]
  {
  }

  // ----- Decoders ------------------------------------------------------------------------

  function Code(tagged: nat): nat { tagged - tagged % 2 }

  predicate IsThumb(tagged: nat) { tagged % 2 == 1 }

  /** The linker's reading: tagged addresses, accumulated as they are. */
  function Sums(from: nat, deltas: seq<nat>): (r: seq<nat>)
    ensures |r| == |deltas|
    decreases |deltas|
  {
    if deltas == [] then [] else [from + deltas[0]] + Sums(from + deltas[0], deltas[1..])
  }

  function Codes(tagged: seq<nat>): (r: seq<nat>)
    ensures |r| == |tagged|
    ensures forall i :: 0 <= i < |r| ==> r[i] == Code(tagged[i])
  {
    seq(|tagged|, i requires 0 <= i < |tagged| => Code(tagged[i]))
  }

  /** The debugger's reading: the Thumb bit is cleared from the running address. */
  function DebuggerCodes(from: nat, deltas: seq<nat>): (r: seq<nat>)
    ensures |r| == |deltas|
    decreases |deltas|
  {
    if deltas == [] then []
    else var code := Code(from + deltas[0]); [code] + DebuggerCodes(code, deltas[1..])
  }

  /** Differences of increasing addresses. */
  function Gaps(from: nat, tagged: seq<nat>): (r: seq<nat>)
    requires Increasing(from, tagged)
    ensures |r| == |tagged|
    decreases |tagged|
  {
    if tagged == [] then [] else [tagged[0] - from] + Gaps(tagged[0], tagged[1..])
  }

  predicate Increasing(from: nat, tagged: seq<nat>)
    decreases |tagged|
  {
    tagged == [] || (from < tagged[0] && Increasing(tagged[0], tagged[1..]))
  }

  lemma {:induction false} GapsAddUp(from: nat, tagged: seq<nat>)
    requires Increasing(from, tagged)
    ensures Sums(from, Gaps(from, tagged)) == tagged
    ensures forall i :: 0 <= i < |tagged| ==> 0 < Gaps(from, tagged)[i] <= tagged[i]
    decreases |tagged|
  {
    if tagged != [] { GapsAddUp(tagged[0], tagged[1..]); }
  }

  /** A Thumb function is directly followed by an ARM one. */
  predicate Returns(tagged: seq<nat>) {
    |tagged| >= 2 && ((IsThumb(tagged[0]) && !IsThumb(tagged[1])) || Returns(tagged[1..]))
  }

  /** Code addresses grow by at least two. */
  predicate Spaced(tagged: seq<nat>) {
    |tagged| < 2 || (Code(tagged[0]) < Code(tagged[1]) && Spaced(tagged[1..]))
  }

  /** The debugger goes wrong exactly on the tables that return from Thumb to ARM. */
  lemma {:induction false} DebuggerIsRight(from: nat, tagged: seq<nat>)
    requires Increasing(from, tagged) && Spaced(tagged)
    ensures DebuggerCodes(from, Gaps(from, tagged)) == Codes(tagged) <==> !Returns(tagged)
    decreases |tagged|
  {
    if tagged != [] { FromCodeIsRight(tagged[0], tagged[1..]); }
    if tagged != [] {
      assert Codes(tagged) == [Code(tagged[0])] + Codes(tagged[1..]);
      assert Returns(tagged) <==> Returns([tagged[0]] + tagged[1..]) by { assert [tagged[0]] + tagged[1..] == tagged; }
      var rest := DebuggerCodes(Code(tagged[0]), Gaps(tagged[0], tagged[1..]));
      assert DebuggerCodes(from, Gaps(from, tagged)) == [Code(tagged[0])] + rest;
      assert ([Code(tagged[0])] + rest)[1..] == rest;
      assert ([Code(tagged[0])] + Codes(tagged[1..]))[1..] == Codes(tagged[1..]);
    }
  }

  /** The same from the middle of a table, where the debugger stands at the code
      address of the function before. */
  lemma {:induction false} FromCodeIsRight(last: nat, tagged: seq<nat>)
    requires Increasing(last, tagged) && Spaced([last] + tagged)
    ensures DebuggerCodes(Code(last), Gaps(last, tagged)) == Codes(tagged) <==> !Returns([last] + tagged)
    decreases |tagged|
  {
    if tagged != [] {
      var next, tail := tagged[0], tagged[1..];
      assert ([last] + tagged)[1..] == tagged && [next] + tail == tagged;
      FromCodeIsRight(next, tail);
      OneStep(last, next);
      FromCodeStep(last, tagged);
      var first := Code(Code(last) + (next - last));
      SameList(first, DebuggerCodes(first, Gaps(next, tail)), Code(next), Codes(tail));
    }
  }

  lemma FromCodeStep(last: nat, tagged: seq<nat>)
    requires tagged != [] && Increasing(last, tagged)
    ensures var first := Code(Code(last) + (tagged[0] - last));
      && DebuggerCodes(Code(last), Gaps(last, tagged)) == [first] + DebuggerCodes(first, Gaps(tagged[0], tagged[1..]))
      && Codes(tagged) == [Code(tagged[0])] + Codes(tagged[1..])
  {
    var gaps := Gaps(last, tagged);
    assert gaps[0] == tagged[0] - last && gaps[1..] == Gaps(tagged[0], tagged[1..]);
  }

  lemma SameList(a: nat, s: seq<nat>, b: nat, t: seq<nat>)
    ensures [a] + s == [b] + t <==> a == b && s == t
  {
    assert ([a] + s)[0] == a && ([b] + t)[0] == b && ([a] + s)[1..] == s && ([b] + t)[1..] == t;
  }

  lemma OneStep(last: nat, next: nat)
    requires Code(last) < Code(next)
    ensures Code(Code(last) + (next - last)) == Code(next) <==> !(IsThumb(last) && !IsThumb(next))
  {
  }

  // ----- Normalising -----------------------------------------------------------------------

  /** The text segment, and the ARM functions a symbol names. */
  datatype Image = Image(text: nat, size: nat, named: set<nat>)

  predicate Fits(image: Image, previous: nat, tagged: nat) {
    tagged < U32 && image.text <= Code(tagged) < image.text + image.size && Code(previous) < Code(tagged)
  }

  predicate InOrder(image: Image, previous: nat, tagged: seq<nat>)
    decreases |tagged|
  {
    tagged == [] || (Fits(image, previous, tagged[0]) && InOrder(image, tagged[0], tagged[1..]))
  }

  /** The same code addresses, marked Thumb from the first Thumb function on. */
  function Normal(thumb: bool, tagged: seq<nat>): (r: seq<nat>)
    ensures |r| == |tagged|
    decreases |tagged|
  {
    if tagged == [] then []
    else
      var now := thumb || IsThumb(tagged[0]);
      [Code(tagged[0]) + if now then 1 else 0] + Normal(now, tagged[1..])
  }

  /** An ARM function after the first Thumb one has no symbol to correct it. */
  predicate Unsafe(image: Image, thumb: bool, tagged: seq<nat>)
    decreases |tagged|
  {
    tagged != [] && (
      var now := thumb || IsThumb(tagged[0]);
      (now && !IsThumb(tagged[0]) && Code(tagged[0]) !in image.named) || Unsafe(image, now, tagged[1..]))
  }

  lemma {:induction false} NormalIncreases(image: Image, previous: nat, thumb: bool, tagged: seq<nat>)
    requires InOrder(image, previous, tagged)
    ensures Increasing(previous, Normal(thumb, tagged))
    decreases |tagged|
  {
    if tagged != [] {
      var now := thumb || IsThumb(tagged[0]);
      var first := Code(tagged[0]) + if now then 1 else 0;
      SameOrder(image, tagged[0], first, tagged[1..]);
      NormalIncreases(image, first, now, tagged[1..]);
      assert Normal(thumb, tagged)[1..] == Normal(now, tagged[1..]);
    }
  }

  /** Only the code address of the function before matters. */
  lemma SameOrder(image: Image, a: nat, b: nat, tagged: seq<nat>)
    requires Code(a) == Code(b)
    ensures InOrder(image, a, tagged) <==> InOrder(image, b, tagged)
  {
  }

  /** What the rewritten table is made of. */
  lemma {:induction false} NormalKeeps(image: Image, previous: nat, thumb: bool, tagged: seq<nat>)
    requires InOrder(image, previous, tagged)
    ensures Codes(Normal(thumb, tagged)) == Codes(tagged)
    ensures forall i :: 0 <= i < |tagged| ==> Normal(thumb, tagged)[i] < U32
    ensures !Returns(Normal(thumb, tagged)) && Spaced(Normal(thumb, tagged))
    ensures tagged != [] && thumb ==> IsThumb(Normal(thumb, tagged)[0])
    decreases |tagged|
  {
    if tagged != [] {
      var now := thumb || IsThumb(tagged[0]);
      var rest := Normal(now, tagged[1..]);
      NormalKeeps(image, tagged[0], now, tagged[1..]);
      assert Normal(thumb, tagged)[1..] == rest;
      assert forall i :: 0 <= i < |tagged| - 1 ==> Codes(rest)[i] == Codes(tagged[1..])[i];
      if |tagged| > 1 { assert Code(rest[0]) == Codes(rest)[0] == Code(tagged[1]); }
    }
  }

  /** Thumb sticks; where it was not there before, a symbol names the function. */
  lemma {:induction false} ThumbSticks(image: Image, thumb: bool, tagged: seq<nat>, i: nat)
    requires i < |tagged|
    ensures IsThumb(Normal(thumb, tagged)[i]) <==> thumb || exists j :: 0 <= j <= i && IsThumb(tagged[j])
    ensures !Unsafe(image, thumb, tagged) && IsThumb(Normal(thumb, tagged)[i]) && !IsThumb(tagged[i]) ==>
              Code(tagged[i]) in image.named
    decreases |tagged|
  {
    if i > 0 {
      var now := thumb || IsThumb(tagged[0]);
      ThumbSticks(image, now, tagged[1..], i - 1);
      if exists j :: 0 <= j <= i - 1 && IsThumb(tagged[1..][j]) {
        var j :| 0 <= j <= i - 1 && IsThumb(tagged[1..][j]);
        assert IsThumb(tagged[j + 1]);
      }
      if j :| 0 <= j <= i && IsThumb(tagged[j]) {
        if j > 0 { assert IsThumb(tagged[1..][j - 1]); }
      }
    }
  }

  /** A table is unsafe exactly if some ARM function behind a Thumb one is not named. */
  lemma {:induction false} UnsafeIff(image: Image, thumb: bool, tagged: seq<nat>)
    ensures Unsafe(image, thumb, tagged) <==> exists i :: 0 <= i < |tagged| && Misleads(image, thumb, tagged, i)
    decreases |tagged|
  {
    hide IsThumb, Code;
    if tagged != [] {
      var now, rest := thumb || IsThumb(tagged[0]), tagged[1..];
      UnsafeIff(image, now, rest);
      forall i | 0 <= i < |rest| ensures Misleads(image, now, rest, i) <==> Misleads(image, thumb, tagged, i + 1) {
        MisleadsLater(image, thumb, tagged, i);
      }
      if i :| 0 <= i < |tagged| && Misleads(image, thumb, tagged, i) {
        if i > 0 { assert Misleads(image, now, rest, i - 1); }
      }
      if Misleads(image, thumb, tagged, 0) { assert Unsafe(image, thumb, tagged); }
    }
  }

  /** An ARM function that nothing names, behind a Thumb one. */
  ghost predicate Misleads(image: Image, thumb: bool, tagged: seq<nat>, i: nat)
    requires i < |tagged|
  {
    && !IsThumb(tagged[i]) && Code(tagged[i]) !in image.named
    && (thumb || exists j :: 0 <= j < i && IsThumb(tagged[j]))
  }

  lemma MisleadsLater(image: Image, thumb: bool, tagged: seq<nat>, i: nat)
    requires i + 1 < |tagged|
    ensures Misleads(image, thumb || IsThumb(tagged[0]), tagged[1..], i) <==> Misleads(image, thumb, tagged, i + 1)
  {
    var rest := tagged[1..];
    if j :| 0 <= j < i && IsThumb(rest[j]) { assert IsThumb(tagged[j + 1]); }
    if j :| 0 <= j < i + 1 && IsThumb(tagged[j]) {
      if j > 0 { assert IsThumb(rest[j - 1]); }
    }
  }

  /** A 32-bit code address of the text segment, behind the one before it. */
  ghost predicate FitsAt(image: Image, previous: nat, tagged: seq<nat>, i: nat)
    requires i < |tagged|
  {
    var code, before := tagged[i] - tagged[i] % 2, if i == 0 then previous else tagged[i - 1];
    && tagged[i] < 0x1_0000_0000 && image.text <= code < image.text + image.size
    && before - before % 2 < code
  }

  lemma {:induction false} InOrderIff(image: Image, previous: nat, tagged: seq<nat>)
    ensures InOrder(image, previous, tagged) <==> forall i :: 0 <= i < |tagged| ==> FitsAt(image, previous, tagged, i)
    decreases |tagged|
  {
    hide FitsAt, Fits;
    if tagged != [] {
      var rest := tagged[1..];
      InOrderIff(image, tagged[0], rest);
      FirstFits(image, previous, tagged);
      forall i | 0 <= i < |rest| ensures FitsAt(image, tagged[0], rest, i) <==> FitsAt(image, previous, tagged, i + 1) {
        FitsLater(image, previous, tagged, i);
      }
      if forall i :: 0 <= i < |rest| ==> FitsAt(image, tagged[0], rest, i) {
        forall i | 0 < i < |tagged| ensures FitsAt(image, previous, tagged, i) {
          assert FitsAt(image, tagged[0], rest, i - 1);
        }
      }
    }
  }

  lemma FirstFits(image: Image, previous: nat, tagged: seq<nat>)
    requires tagged != []
    ensures Fits(image, previous, tagged[0]) <==> FitsAt(image, previous, tagged, 0)
  {
  }

  lemma FitsLater(image: Image, previous: nat, tagged: seq<nat>, i: nat)
    requires i + 1 < |tagged|
    ensures FitsAt(image, tagged[0], tagged[1..], i) <==> FitsAt(image, previous, tagged, i + 1)
  {
  }

  /** Normalising again changes nothing and finds nothing unsafe. */
  lemma {:induction false} NormalTwice(image: Image, thumb: bool, tagged: seq<nat>)
    ensures Normal(thumb, Normal(thumb, tagged)) == Normal(thumb, tagged)
    ensures !Unsafe(image, thumb, Normal(thumb, tagged))
    decreases |tagged|
  {
    if tagged != [] {
      var now := thumb || IsThumb(tagged[0]);
      NormalTwice(image, now, tagged[1..]);
      assert Normal(thumb, tagged)[1..] == Normal(now, tagged[1..]);
    }
  }

  lemma {:induction false} NormalInOrder(image: Image, a: nat, b: nat, thumb: bool, tagged: seq<nat>)
    requires InOrder(image, a, tagged) && Code(a) == Code(b)
    requires forall i :: 0 <= i < |tagged| ==> Normal(thumb, tagged)[i] < U32
    ensures InOrder(image, b, Normal(thumb, tagged))
    decreases |tagged|
  {
    if tagged != [] {
      var now := thumb || IsThumb(tagged[0]);
      var n := Normal(thumb, tagged);
      assert n[1..] == Normal(now, tagged[1..]);
      NormalInOrder(image, tagged[0], n[0], now, tagged[1..]);
    }
  }

  // ----- The rewritten table --------------------------------------------------------------

  /** The entries for `tagged`, without their terminator. */
  function Entries(previous: nat, thumb: bool, tagged: seq<nat>): Bytes
    requires Increasing(previous, Normal(thumb, tagged))
  {
    EncodeAll(Gaps(previous, Normal(thumb, tagged)))
  }

  datatype Outcome = Reject | Drop | Keep(table: Bytes)

  /** What becomes of a table: it is not understood, it is given up, or it is replaced. */
  function Normalized(image: Image, data: Bytes): Outcome {
    match Deltas(data, 0)
    case None => Reject
    case Some(deltas) =>
      var tagged := Sums(image.text, deltas);
      if deltas == [] || !InOrder(image, image.text, tagged) then Reject
      else
        NormalIncreases(image, image.text, false, tagged);
        var table := Entries(image.text, false, tagged) + [0];
        if Unsafe(image, false, tagged) || |table| > |data| then Drop else Keep(table)
  }

  ghost predicate Understood(image: Image, deltas: Option<seq<nat>>) {
    && deltas.Some? && deltas.value != []
    && var tagged := Sums(image.text, deltas.value);
       forall i :: 0 <= i < |tagged| ==> FitsAt(image, image.text, tagged, i)
  }

  /** Exactly when a table is understood, and when it is kept. */
  lemma OutcomeIff(image: Image, data: Bytes)
    ensures var deltas := Deltas(data, 0);
            && (Normalized(image, data).Reject? <==> !Understood(image, deltas))
            && (Normalized(image, data).Keep? <==>
                 && Understood(image, deltas)
                 && var tagged := Sums(image.text, deltas.value);
                    && (forall i :: 0 <= i < |tagged| ==> !Misleads(image, false, tagged, i))
                    && Increasing(image.text, Normal(false, tagged))
                    && |Entries(image.text, false, tagged)| < |data|)
  {
    hide Deltas, Entries, InOrder, Unsafe, Normal, Misleads, FitsAt, Increasing;
    var deltas := Deltas(data, 0);
    if deltas.Some? {
      var tagged := Sums(image.text, deltas.value);
      InOrderIff(image, image.text, tagged);
      UnsafeIff(image, false, tagged);
      if InOrder(image, image.text, tagged) { NormalIncreases(image, image.text, false, tagged); }
    }
  }

  function Padded(table: Bytes, size: nat): (r: Bytes)
    requires |table| <= size
    ensures |r| == size
  {
    table + Zeros(size - |table|)
  }

  /** A kept table decodes, by both readings, to the code addresses the linker meant. */
  lemma KeptTableDecodes(image: Image, data: Bytes)
    requires Normalized(image, data).Keep? && image.text < U32
    ensures Deltas(data, 0).Some?
    ensures var table := Normalized(image, data).table;
      |table| <= |data| && Deltas(Padded(table, |data|), 0).Some?
    ensures var tagged := Sums(image.text, Deltas(data, 0).value);
      var deltas := Deltas(Padded(Normalized(image, data).table, |data|), 0).value;
      && Sums(image.text, deltas) == Normal(false, tagged)
      && Codes(Sums(image.text, deltas)) == Codes(tagged)
      && DebuggerCodes(image.text, deltas) == Codes(tagged)
      && InOrder(image, image.text, tagged) && !Unsafe(image, false, tagged)
  {
    hide ReadOn, EncodeULEB, EncodeAll, Unsafe, InOrder, Codes, DebuggerCodes, Returns, Spaced;
    var tagged := Sums(image.text, Deltas(data, 0).value);
    var table := Normalized(image, data).table;
    NormalIncreases(image, image.text, false, tagged);
    NormalKeeps(image, image.text, false, tagged);
    var normal := Normal(false, tagged);
    var deltas := Gaps(image.text, normal);
    GapsAddUp(image.text, normal);
    var padded := Padded(table, |data|);
    assert padded[0..0 + |table|] == table;
    TableReadsBack(deltas, padded, 0);
    DebuggerIsRight(image.text, normal);
  }

  /** Normalising a normalised table yields the same bytes. */
  lemma NormalisingIsIdempotent(image: Image, data: Bytes)
    requires Normalized(image, data).Keep? && image.text < U32
    ensures var table := Normalized(image, data).table;
      |table| <= |data| && Normalized(image, Padded(table, |data|)) == Keep(table)
  {
    hide ReadOn, EncodeULEB, EncodeAll, Codes, DebuggerCodes, Returns, Spaced, Deltas;
    KeptTableDecodes(image, data);
    var tagged := Sums(image.text, Deltas(data, 0).value);
    var normal := Normal(false, tagged);
    NormalKeeps(image, image.text, false, tagged);
    NormalIncreases(image, image.text, false, tagged);
    NormalTwice(image, false, tagged);
    NormalInOrder(image, image.text, image.text, false, tagged);
  }

  // ----- The rewrite in place -----------------------------------------------------------------

  datatype Scan = Scan(at: nat, tagged: nat, previous: nat, thumb: bool, isUnsafe: bool, first: bool, out: Bytes)

  /** The pass over the table from a point on: whether it is unsafe, and the new table. */
  function Rest(image: Image, data: Bytes, scan: Scan): (r: Option<(bool, Bytes)>)
    decreases |data| - scan.at
  {
    if scan.at >= |data| then None
    else
      match ReadOn(data, scan.at, 1, 0)
      case None => None
      case Some((delta, next)) =>
        if delta == 0 then (if scan.first then None else Some((scan.isUnsafe, scan.out + [0])))
        else if !Fits(image, scan.previous, scan.tagged + delta) then None
        else Rest(image, data, Advanced(image, scan, scan.tagged + delta, next))
  }

  function Advanced(image: Image, scan: Scan, tagged: nat, next: nat): Scan
    requires Fits(image, scan.previous, tagged)
  {
    var thumb := scan.thumb || IsThumb(tagged);
    var normal := Code(tagged) + if thumb then 1 else 0;
    Scan(next, tagged, normal, thumb,
         scan.isUnsafe || (thumb && !IsThumb(tagged) && Code(tagged) !in image.named),
         false, scan.out + EncodeULEB(normal - scan.previous))
  }

  /** The same, from the deltas that are left. */
  function Finished(image: Image, scan: Scan, deltas: Option<seq<nat>>): (r: Option<(bool, Bytes)>) {
    if deltas.None? then None
    else
      var tagged := Sums(scan.tagged, deltas.value);
      if (tagged == [] && scan.first) || !InOrder(image, scan.previous, tagged) then None
      else
        NormalIncreases(image, scan.previous, scan.thumb, tagged);
        Some((scan.isUnsafe || Unsafe(image, scan.thumb, tagged),
              scan.out + Entries(scan.previous, scan.thumb, tagged) + [0]))
  }

  lemma {:induction false} RestIs(image: Image, data: Bytes, scan: Scan)
    ensures Rest(image, data, scan) == Finished(image, scan, Deltas(data, scan.at))
    decreases |data| - scan.at
  {
    hide ReadOn, EncodeULEB, Finished, Advanced, Fits;
    FinishedNone(image, scan);
    if scan.at < |data| {
      var read := ReadOn(data, scan.at, 1, 0);
      if read.Some? && read.value.0 > 0 {
        var delta, next := read.value.0, read.value.1;
        var deltas := Deltas(data, next);
        if Fits(image, scan.previous, scan.tagged + delta) {
          var after := Advanced(image, scan, scan.tagged + delta, next);
          assert after.at == next by { AdvancedAt(image, scan, scan.tagged + delta, next); }
          RestIs(image, data, after);
          FinishedNone(image, after);
        }
        if deltas.Some? { FinishedStep(image, scan, delta, next, deltas.value); }
      }
    }
  }

  lemma AdvancedAt(image: Image, scan: Scan, tagged: nat, next: nat)
    requires Fits(image, scan.previous, tagged)
    ensures Advanced(image, scan, tagged, next).at == next
  {
  }

  lemma FinishedNone(image: Image, scan: Scan)
    ensures Finished(image, scan, None) == None
    ensures Finished(image, scan, Some([])) == if scan.first then None else Some((scan.isUnsafe, scan.out + [0]))
  {
    assert scan.out + [] == scan.out;
  }

  lemma FinishedStep(image: Image, scan: Scan, delta: nat, next: nat, rest: seq<nat>)
    ensures Fits(image, scan.previous, scan.tagged + delta) ==>
      Finished(image, scan, Some([delta] + rest))
      == Finished(image, Advanced(image, scan, scan.tagged + delta, next), Some(rest))
    ensures !Fits(image, scan.previous, scan.tagged + delta) ==> Finished(image, scan, Some([delta] + rest)).None?
  {
    hide EncodeULEB, Entries, Increasing, Normal;
    var t := scan.tagged + delta;
    assert ([delta] + rest)[1..] == rest;
    var later := Sums(t, rest);
    assert Sums(scan.tagged, [delta] + rest) == [t] + later && ([t] + later)[1..] == later;
    if Fits(image, scan.previous, t) { RestStep(image, scan, t, next, later); }
  }

  lemma RestStep(image: Image, scan: Scan, t: nat, next: nat, rest: seq<nat>)
    requires Fits(image, scan.previous, t)
    ensures InOrder(image, t, rest) <==> InOrder(image, Advanced(image, scan, t, next).previous, rest)
    ensures ([t] + rest)[1..] == rest
    ensures var after := Advanced(image, scan, t, next);
      InOrder(image, t, rest) ==>
        && Increasing(scan.previous, Normal(scan.thumb, [t] + rest))
        && Increasing(after.previous, Normal(after.thumb, rest))
        && scan.out + Entries(scan.previous, scan.thumb, [t] + rest)
           == after.out + Entries(after.previous, after.thumb, rest)
  {
    hide EncodeULEB;
    var after := Advanced(image, scan, t, next);
    assert ([t] + rest)[1..] == rest;
    SameOrder(image, t, after.previous, rest);
    if InOrder(image, t, rest) {
      NormalIncreases(image, after.previous, after.thumb, rest);
      var normal := Normal(scan.thumb, [t] + rest);
      assert normal == [after.previous] + Normal(after.thumb, rest);
      assert normal[1..] == Normal(after.thumb, rest);
      var gaps := Gaps(scan.previous, normal);
      assert gaps == [after.previous - scan.previous] + Gaps(after.previous, Normal(after.thumb, rest));
      assert gaps[1..] == Gaps(after.previous, Normal(after.thumb, rest));
    }
  }

  /** Takes one entry over into the new table. */
  method TakeEntry(image: Image, scan: Scan, tagged: nat, next: nat) returns (r: Scan)
    requires Fits(image, scan.previous, tagged)
    ensures r == Advanced(image, scan, tagged, next)
  {
    hide EncodeULEB;
    var thumb, isUnsafe := scan.thumb, scan.isUnsafe;
    var code := tagged - tagged % 2;
    if IsThumb(tagged) {
      thumb := true;
    } else if thumb && code !in image.named {
      isUnsafe := true;
    }
    var normal := code + if thumb then 1 else 0;
    var out := AppendULEB(scan.out, normal - scan.previous);
    return Scan(next, tagged, normal, thumb, isUnsafe, false, out);
  }

  /** The pass, as a loop. */
  method ScanTable(image: Image, data: Bytes) returns (r: Option<(bool, Bytes)>)
    requires image.text < U32
    ensures r == Rest(image, data, Scan(0, image.text, image.text, false, false, true, []))
  {
    hide ReadOn, EncodeULEB;
    var scan := Scan(0, image.text, image.text, false, false, true, []);
    ghost var whole := Rest(image, data, scan);
    while scan.at < |data|
      invariant scan.tagged < U32 && Rest(image, data, scan) == whole
      decreases |data| - scan.at
    {
      var read := ReadULEB(data, scan.at);
      if read.None? { return None; }
      var delta, next := read.value.0, read.value.1;
      if delta == 0 { return if scan.first then None else Some((scan.isUnsafe, scan.out + [0])); }
      if delta > U32 - 1 - scan.tagged { return None; }
      var tagged := scan.tagged + delta;
      var code := tagged - tagged % 2;
      if || code < image.text || code >= image.text + image.size
         || code <= scan.previous - scan.previous % 2 { return None; }
      scan := TakeEntry(image, scan, tagged, next);
    }
    return None;
  }

  /** Rewrites the table at [start, start + size) of a mapped file, or clears the size
      its load command gives.  `changed` says whether the file is to be written back. */
  method Normalize(image: Image, file: array<byte>, start: nat, size: nat, sizeField: nat) returns (ok: bool,
      changed: bool)
    requires image.text < U32 && start + size <= file.Length && sizeField + 4 <= file.Length
    modifies file
    ensures ok <==> !Normalized(image, old(file[start..start + size])).Reject?
    ensures file[..] == match Normalized(image, old(file[start..start + size]))
                        case Reject => old(file[..])
                        case Drop => Put(old(file[..]), sizeField, Zeros(4))
                        case Keep(table) =>
                          if |table| <= size then Put(old(file[..]), start, Padded(table, size)) else old(file[..])
    ensures changed <==> match Normalized(image, old(file[start..start + size]))
                         case Reject => false
                         case Drop => true
                         case Keep(table) => table != old(file[start..start + size])
  {
    hide Rest, Deltas, InOrder, Unsafe, Increasing, Entries, Put, Padded, Normalized;
    var data := file[start..start + size];
    var scanned := ScanTable(image, data);
    ScanIsNormalized(image, data);
    if scanned.None? { return false, false; }
    var (isUnsafe, table) := scanned.value;
    if isUnsafe || |table| > size {
      CopyInto(file, sizeField, Zeros(4));
      return true, true;
    }
    if |table| != size || data[..|table|] != table {
      CopyInto(file, start, Zeros(size));
      CopyInto(file, start, table);
      PaddedInPlace(old(file[..]), start, table, size);
      return true, true;
    }
    SameInPlace(old(file[..]), start, table, size);
    return true, false;
  }

  /** Zeros over the whole space, then the table, is the padded table. */
  lemma PaddedInPlace(s: Bytes, start: nat, table: Bytes, size: nat)
    requires |table| <= size && start + size <= |s|
    ensures Put(Put(s, start, Zeros(size)), start, table) == Put(s, start, Padded(table, size))
  {
    var one, other := Put(Put(s, start, Zeros(size)), start, table), Put(s, start, Padded(table, size));
    forall i | 0 <= i < |s| ensures one[i] == other[i] {}
  }

  lemma SameInPlace(s: Bytes, start: nat, table: Bytes, size: nat)
    requires |table| == size && start + size <= |s| && s[start..start + size][..size] == table
    ensures Padded(table, size) == table && s[start..start + size] == table && Put(s, start, table) == s
  {
  }

  lemma ScanIsNormalized(image: Image, data: Bytes)
    ensures var r := Rest(image, data, Scan(0, image.text, image.text, false, false, true, []));
      Normalized(image, data) == match r
                                 case None => Reject
                                 case Some((isUnsafe, table)) =>
                                   if isUnsafe || |table| > |data| then Drop else Keep(table)
  {
    hide Rest, Deltas, InOrder, Unsafe, Increasing, Normal;
    RestIs(image, data, Scan(0, image.text, image.text, false, false, true, []));
    var deltas := Deltas(data, 0);
    if deltas.Some? && InOrder(image, image.text, Sums(image.text, deltas.value)) {
      NormalIncreases(image, image.text, false, Sums(image.text, deltas.value));
      var entries := Entries(image.text, false, Sums(image.text, deltas.value));
      assert [] + entries + [0] == entries + [0];
    }
  }

  /** Running the rewrite on its own output leaves the bytes alone, yet reports a
      change exactly when the new table is shorter than the space it has. */
  lemma SecondRunReportsChange(image: Image, data: Bytes)
    requires Normalized(image, data).Keep? && image.text < U32
    ensures var table := Normalized(image, data).table;
      && |table| <= |data|
      && Normalized(image, Padded(table, |data|)) == Keep(table)
      && (table != Padded(table, |data|) <==> |table| < |data|)
  {
    NormalisingIsIdempotent(image, data);
  }

  /** Such a case: one function, and two bytes to spare. */
  lemma SecondRunExample()
    ensures var image, data := Image(0x1000, 0x100, {}), [4, 0, 0, 0];
      && Normalized(image, data) == Keep([4, 0]) && Padded([4, 0], |data|) == data && data != [4, 0]
  {
    var image, data: Bytes := Image(0x1000, 0x100, {}), [4, 0, 0, 0];
    assert ReadOn(data, 0, 1, 0) == Some((4, 1)) && ReadOn(data, 1, 1, 0) == Some((0, 2)) by { SmallBytes(); }
    assert Deltas(data, 1) == Some([]);
    assert [4] + [] == [4];
    assert Deltas(data, 0) == Some([4]);
    assert Sums(0x1000, [4]) == [0x1004] && Normal(false, [0x1004]) == [0x1004];
    assert Gaps(0x1000, [0x1004]) == [4];
    assert EncodeAll([4]) == [4];
    assert Padded([4, 0], 4) == data;
  }

  lemma SmallBytes()
    ensures ReadOn([4, 0, 0, 0], 0, 1, 0) == Some((4, 1)) && ReadOn([4, 0, 0, 0], 1, 1, 0) == Some((0, 2))
  {
  }
}
