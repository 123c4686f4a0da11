/**
 Type encodings of plain structs, laid out for the 32-bit guest or the native ABI in
 one pass over the encoding.
 */
module PodType {
  import opened Wrappers
  import Bits

  const MAX_FIELDS: nat := 32
  const MAX_SIZE: nat := 256
  const MAX_DEPTH: nat := 8

  datatype Field = Field(kind: char, offset: nat)
  datatype Pod = Pod(size: nat, alignment: nat, fields: seq<Field>)

  const EMPTY := Pod(0, 1, [])

  function ScalarSize(kind: char): (n: nat)
    ensures n == 0 || IsAlignment(n)
  {
    if kind in "BcC" then 1
    else if kind in "sS" then 2
    else if kind in "iIlLf" then 4
    else if kind in "qQd" then 8
    else 0
  }

  predicate IsAlignment(n: nat) {
    n == 1 || n == 2 || n == 4 || n == 8
  }

  function ScalarAlignment(kind: char, native: bool): nat {
    var size := ScalarSize(kind);
    if native || size < 4 then size else 4
  }

  function Scalar(kind: char, native: bool): Pod {
    Pod(ScalarSize(kind), ScalarAlignment(kind, native), [Field(kind, 0)])
  }

  /** Rounding up with a mask. */
  function Align(size: nat, alignment: nat): nat {
    if alignment == 0 then size
    else var sum := size + (alignment - 1); sum - Bits.And(sum, alignment - 1)
  }

  lemma AlignIs(x: nat, a: nat)
    requires IsAlignment(a)
    ensures Align(x, a) == Bits.AlignUp(x, a)
  {
    hide Bits.AlignUp;
    assert Bits.IsPowerOfTwo(1) && Bits.IsPowerOfTwo(2) && Bits.IsPowerOfTwo(4) && Bits.IsPowerOfTwo(8);
    Bits.MaskAligns(x, a);
  }

  function Shifted(fields: seq<Field>, offset: nat): (r: seq<Field>)
    ensures |r| == |fields|
    ensures forall i :: 0 <= i < |r| ==> r[i] == Field(fields[i].kind, fields[i].offset + offset)
  {
    seq(|fields|, i requires 0 <= i < |fields| => Field(fields[i].kind, fields[i].offset + offset))
  }

  function Append(t: Pod, f: Pod): (r: Option<Pod>) {
    var offset := Align(t.size, f.alignment);
    if offset + f.size > MAX_SIZE || |t.fields| + |f.fields| > MAX_FIELDS then None
    else
      var alignment := if t.alignment < f.alignment then f.alignment else t.alignment;
      Some(Pod(offset + f.size, alignment, t.fields + Shifted(f.fields, offset)))
  }

  function AppendMany(t: Pod, f: Pod, n: nat): (r: Option<Pod>)
    decreases n
  {
    if n == 0 then Some(t)
    else
      match Append(t, f)
      case None => None
      case Some(t') => AppendMany(t', f, n - 1)
  }

  function Closed(t: Pod): Pod {
    t.(size := Align(t.size, t.alignment))
  }

  // ----- Parsing -------------------------------------------------------------------------

  /** The character at `i`, NUL from the end of the encoding on. */
  function At(s: string, i: nat): char {
    if i < |s| then s[i] else '\0'
  }

  function SkipQualifiers(s: string, at: nat): (r: nat)
    ensures at <= r && (at <= |s| ==> r <= |s|)
    decreases |s| - at
  {
    if at < |s| && s[at] in "rnNoORVA" then SkipQualifiers(s, at + 1) else at
  }

  /** The first of the given characters, or the end. */
  function SkipTo(s: string, at: nat, stops: string): (r: nat)
    ensures at <= r && (at <= |s| ==> r <= |s|)
    decreases |s| - at
  {
    if At(s, at) != '\0' && At(s, at) !in stops then SkipTo(s, at + 1, stops) else at
  }

  predicate IsDigit(c: char) { '0' <= c <= '9' }

  function Count(s: string, at: nat, count: nat): (r: Option<(nat, nat)>)
    ensures r.Some? ==> at <= r.value.1 && (at <= |s| ==> r.value.1 <= |s|)
    decreases |s| - at
  {
    if !IsDigit(At(s, at)) then Some((count, at))
    else
      var next := count * 10 + (At(s, at) as int - '0' as int);
      if next > MAX_FIELDS then None else Count(s, at + 1, next)
  }

  /** Past an optional quoted field name. */
  function SkipFieldName(s: string, at: nat): (r: Option<nat>)
    ensures r.Some? ==> at <= r.value && (at <= |s| ==> r.value <= |s|)
  {
    if At(s, at) != '"' then Some(at)
    else
      var end := SkipTo(s, at + 1, "\"");
      if At(s, end) == '"' then Some(end + 1) else None
  }

  function Parse(s: string, at: nat, native: bool, depth: nat): (r: Option<(Pod, nat)>)
    requires at <= |s|
    ensures r.Some? ==> at < r.value.1 <= |s|
    decreases MAX_DEPTH + 1 - depth, 1, 0
  {
    if depth > MAX_DEPTH then None
    else
      var p := SkipQualifiers(s, at);
      var kind := At(s, p);
      if ScalarSize(kind) != 0 then Some((Scalar(kind, native), p + 1))
      else if kind == '{' then
        var eq := SkipTo(s, p + 1, "=}");
        if At(s, eq) != '=' then None else ParseFields(s, eq + 1, native, depth, EMPTY)
      else if kind == '[' then ParseArray(s, p + 1, native, depth)
      else None
  }

  /** The rest of an array from its count on. */
  function ParseArray(s: string, at: nat, native: bool, depth: nat): (r: Option<(Pod, nat)>)
    requires at <= |s| && depth <= MAX_DEPTH
    ensures r.Some? ==> at < r.value.1 <= |s|
    decreases MAX_DEPTH + 1 - depth, 0, 0
  {
    match Count(s, at, 0)
    case None => None
    case Some((count, q)) =>
      if count == 0 then None
      else
        match Parse(s, q, native, depth + 1)
        case None => None
        case Some((element, end)) =>
          if At(s, end) != ']' then None
          else
            match AppendMany(EMPTY, element, count)
            case None => None
            case Some(t) => Some((t, end + 1))
  }

  /** The fields of a struct from `at` on, after those already in `t`. */
  function ParseFields(s: string, at: nat, native: bool, depth: nat, t: Pod): (r: Option<(Pod, nat)>)
    requires at <= |s| && depth <= MAX_DEPTH
    ensures r.Some? ==> at < r.value.1 <= |s|
    decreases MAX_DEPTH + 1 - depth, 0, |s| - at
  {
    if At(s, at) == '}' then (if t.fields == [] then None else Some((Closed(t), at + 1)))
    else if At(s, at) == '\0' then None
    else
      match SkipFieldName(s, at)
      case None => None
      case Some(p) =>
        match Parse(s, p, native, depth + 1)
        case None => None
        case Some((field, next)) =>
          match Append(t, field)
          case None => None
          case Some(t') => ParseFields(s, next, native, depth, t')
  }

  /** A whole encoding, which must be one struct and nothing more. */
  function StructType(s: string, native: bool): Option<Pod> {
    var p := SkipQualifiers(s, 0);
    if At(s, p) != '{' then None
    else
      match Parse(s, p, native, 0)
      case None => None
      case Some((t, end)) => if At(s, end) == '\0' then Some(t) else None
  }

  // ----- Layouts -----------------------------------------------------------------------------

  /** A field lies inside the type, aligned for its ABI. */
  ghost predicate FieldOk(t: Pod, native: bool, f: Field) {
    && ScalarSize(f.kind) > 0 && ScalarAlignment(f.kind, native) <= t.alignment
    && f.offset % ScalarAlignment(f.kind, native) == 0
    && f.offset + ScalarSize(f.kind) <= t.size
  }

  /** Fields in order, aligned, disjoint and inside, at most eight bytes for each. */
  ghost predicate LaidOut(t: Pod, native: bool) {
    && IsAlignment(t.alignment)
    && (forall i :: 0 <= i < |t.fields| ==> FieldOk(t, native, t.fields[i]))
    && (forall i, j :: 0 <= i < j < |t.fields| ==>
            t.fields[i].offset + ScalarSize(t.fields[i].kind) <= t.fields[j].offset)
    && Align(t.size, 8) <= 8 * |t.fields|
  }

  ghost predicate Complete(t: Pod, native: bool) {
    LaidOut(t, native) && t.fields != [] && |t.fields| <= MAX_FIELDS && t.size % t.alignment == 0 && t.size <= MAX_SIZE
  }

  lemma AlignFacts(x: nat, a: nat)
    requires IsAlignment(a)
    ensures x <= Align(x, a) < x + a && Align(x, a) % a == 0
    ensures Align(x, a) <= Align(x, 8)
    ensures Align(x, 8) % 8 == 0 && (x % 8 == 0 ==> Align(x, 8) == x)
  {
    hide Align, Bits.AlignUp;
    AlignIs(x, a);
    AlignIs(x, 8);
    Divides(Align(x, 8), 8, a);
    Bits.AlignUpIsLeast(x, a, Align(x, 8));
    if x % 8 == 0 { Bits.AlignUpIsLeast(x, 8, x); }
  }

  /** A larger alignment is a multiple of a smaller one. */
  lemma Divides(x: nat, large: nat, small: nat)
    requires IsAlignment(large) && IsAlignment(small) && small <= large && x % large == 0
    ensures x % small == 0
  {
    assert large % small == 0 by {
      if small == 1 {} else if small == 2 {} else if small == 4 {} else {}
    }
    Bits.MultipleOfMultiple(x, large, small);
  }

  lemma AlignAdds(x: nat, base: nat, size: nat)
    requires base % 8 == 0 && x <= base
    ensures Align(x + size, 8) <= base + Align(size, 8)
  {
    hide Bits.AlignUp, Align;
    AlignFacts(size, 8);
    AlignIs(x + size, 8);
    Bits.AlignUpIsLeast(x + size, 8, base + Align(size, 8));
  }

  lemma ScalarIsComplete(kind: char, native: bool)
    requires ScalarSize(kind) > 0
    ensures Complete(Scalar(kind, native), native)
  {
    hide ScalarSize, Align;
    SmallAlign(ScalarSize(kind));
  }

  lemma SmallAlign(n: nat)
    requires IsAlignment(n)
    ensures Align(n, 8) <= 8
  {
    hide Align;
    AlignIs(n, 8);
    Bits.AlignUpIsLeast(n, 8, 8);
  }

  lemma EmptyIsLaidOut(native: bool)
    ensures LaidOut(EMPTY, native)
  {
    hide Align;
    AlignIs(0, 8);
    Bits.AlignUpIsLeast(0, 8, 0);
  }

  /** Appending fails only for want of fields: the size never runs out first. */
  lemma AppendFits(t: Pod, f: Pod, native: bool)
    requires LaidOut(t, native) && Complete(f, native)
    ensures Append(t, f).Some? <==> |t.fields| + |f.fields| <= MAX_FIELDS
    ensures Align(Align(t.size, f.alignment) + f.size, 8) <= 8 * (|t.fields| + |f.fields|)
  {
    hide Align, FieldOk;
    AlignFacts(t.size, f.alignment);
    var offset := Align(t.size, f.alignment);
    AlignFacts(f.size, 8);
    AlignAdds(offset, 8 * |t.fields|, f.size);
    AlignFacts(offset + f.size, 8);
  }

  lemma AppendKeeps(t: Pod, f: Pod, native: bool)
    requires LaidOut(t, native) && Complete(f, native) && Append(t, f).Some?
    ensures LaidOut(Append(t, f).value, native) && Append(t, f).value.size <= MAX_SIZE
    ensures |Append(t, f).value.fields| <= MAX_FIELDS
    ensures f.fields != [] ==> Append(t, f).value.fields != []
  {
    hide Align, ScalarSize, ScalarAlignment;
    AppendFits(t, f, native);
    AlignFacts(t.size, f.alignment);
    var offset, r := Align(t.size, f.alignment), Append(t, f).value;
    forall i | 0 <= i < |r.fields| ensures FieldOk(r, native, r.fields[i]) {
      if i < |t.fields| {
        assert FieldOk(t, native, t.fields[i]);
      } else {
        ShiftedOk(f, native, f.fields[i - |t.fields|], offset);
      }
    }
    forall i, j | 0 <= i < j < |r.fields|
      ensures r.fields[i].offset + ScalarSize(r.fields[i].kind) <= r.fields[j].offset
    {
      if i < |t.fields| { assert FieldOk(t, native, t.fields[i]); }
    }
  }

  lemma ShiftedOk(f: Pod, native: bool, field: Field, offset: nat)
    requires IsAlignment(f.alignment) && FieldOk(f, native, field) && offset % f.alignment == 0
    ensures (field.offset + offset) % ScalarAlignment(field.kind, native) == 0
  {
    hide ScalarSize;
    Divides(offset, f.alignment, ScalarAlignment(field.kind, native));
    SumIsMultiple(field.offset, offset, ScalarAlignment(field.kind, native));
  }

  /** The type so far is some copies of `f`. */
  ghost predicate Repeats(t: Pod, f: Pod) {
    && IsAlignment(f.alignment) && t.size % f.alignment == 0 && t.size <= MAX_SIZE && |t.fields| <= MAX_FIELDS
    && (t.fields == [] ==> t.alignment <= f.alignment) && (t.fields != [] ==> t.alignment == f.alignment)
  }

  lemma AppendRepeats(t: Pod, f: Pod, native: bool)
    requires LaidOut(t, native) && Complete(f, native) && Append(t, f).Some? && Repeats(t, f)
    ensures LaidOut(Append(t, f).value, native) && Repeats(Append(t, f).value, f) && Append(t, f).value.fields != []
  {
    hide FieldOk, Align;
    AppendKeeps(t, f, native);
    AlignFacts(t.size, f.alignment);
    SumIsMultiple(Align(t.size, f.alignment), f.size, f.alignment);
  }

  lemma {:induction false} AppendManyKeeps(t: Pod, f: Pod, n: nat, native: bool)
    requires LaidOut(t, native) && Complete(f, native) && AppendMany(t, f, n).Some? && Repeats(t, f)
    requires t.fields == [] ==> n > 0
    ensures Complete(AppendMany(t, f, n).value, native)
    decreases n
  {
    hide LaidOut, Append;
    if n > 0 {
      AppendRepeats(t, f, native);
      AppendManyKeeps(Append(t, f).value, f, n - 1, native);
    }
  }

  lemma SumIsMultiple(a: nat, b: nat, m: nat)
    requires IsAlignment(m) && a % m == 0 && b % m == 0
    ensures (a + b) % m == 0
  {
    assert a == m * (a / m) && b == m * (b / m);
    assert a + b == m * (a / m + b / m) + 0;
    Bits.RemainderIsUnique(a + b, m, a / m + b / m, 0);
  }

  lemma ClosedIsComplete(t: Pod, native: bool)
    requires LaidOut(t, native) && t.fields != [] && |t.fields| <= MAX_FIELDS
    ensures Complete(Closed(t), native)
  {
    hide Align;
    AlignFacts(t.size, t.alignment);
    var r := Closed(t);
    AlignIs(r.size, 8);
    AlignFacts(r.size, 8);
    AlignFacts(t.size, 8);
    Bits.AlignUpIsLeast(r.size, 8, Align(t.size, 8));
    forall i | 0 <= i < |r.fields| ensures FieldOk(r, native, r.fields[i]) { assert FieldOk(t, native, t.fields[i]); }
  }

  /** Whatever the parser accepts is laid out soundly for the ABI asked for. */
  lemma {:induction false} ParseIsSound(s: string, at: nat, native: bool, depth: nat)
    requires at <= |s| && Parse(s, at, native, depth).Some?
    ensures Complete(Parse(s, at, native, depth).value.0, native)
    decreases MAX_DEPTH + 1 - depth, 1, 0
  {
    hide Complete, LaidOut, Scalar, SkipQualifiers, SkipTo, Count, AppendMany;
    var p := SkipQualifiers(s, at);
    var kind := At(s, p);
    if ScalarSize(kind) != 0 {
      ScalarIsComplete(kind, native);
    } else if kind == '{' {
      EmptyIsLaidOut(native);
      FieldsAreSound(s, SkipTo(s, p + 1, "=}") + 1, native, depth, EMPTY);
    } else {
      var (count, q) := Count(s, p + 1, 0).value;
      ParseIsSound(s, q, native, depth + 1);
      var element := Parse(s, q, native, depth + 1).value.0;
      ArrayIsComplete(element, count, native);
    }
  }

  lemma ArrayIsComplete(element: Pod, count: nat, native: bool)
    requires Complete(element, native) && count > 0 && AppendMany(EMPTY, element, count).Some?
    ensures Complete(AppendMany(EMPTY, element, count).value, native)
  {
    EmptyIsLaidOut(native);
    AppendManyKeeps(EMPTY, element, count, native);
  }

  lemma {:induction false} FieldsAreSound(s: string, at: nat, native: bool, depth: nat, t: Pod)
    requires at <= |s| && depth <= MAX_DEPTH && LaidOut(t, native) && |t.fields| <= MAX_FIELDS
    requires ParseFields(s, at, native, depth, t).Some?
    ensures Complete(ParseFields(s, at, native, depth, t).value.0, native)
    decreases MAX_DEPTH + 1 - depth, 0, |s| - at
  {
    hide Complete, LaidOut, SkipFieldName, Append, Closed;
    if At(s, at) == '}' {
      ClosedIsComplete(t, native);
    } else {
      var p := SkipFieldName(s, at).value;
      ParseIsSound(s, p, native, depth + 1);
      var (field, next) := Parse(s, p, native, depth + 1).value;
      AppendKeeps(t, field, native);
      FieldsAreSound(s, next, native, depth, Append(t, field).value);
    }
  }

  // ----- Guest and native ----------------------------------------------------------------------

  /** The same fields, nowhere further out for the guest. */
  ghost predicate Corresponds(guest: Pod, native: Pod) {
    && |guest.fields| == |native.fields| && guest.size <= native.size && guest.alignment <= native.alignment
    && (forall i :: 0 <= i < |guest.fields| ==>
            guest.fields[i].kind == native.fields[i].kind && guest.fields[i].offset <= native.fields[i].offset)
  }

  lemma AlignIsMonotone(x: nat, y: nat, a: nat, b: nat)
    requires IsAlignment(a) && IsAlignment(b) && x <= y && a <= b
    ensures Align(x, a) <= Align(y, b)
  {
    hide Align;
    AlignFacts(y, b);
    AlignIs(x, a);
    Divides(Align(y, b), b, a);
    Bits.AlignUpIsLeast(x, a, Align(y, b));
  }

  lemma AppendCorresponds(gt: Pod, nt: Pod, gf: Pod, nf: Pod)
    requires LaidOut(gt, false) && LaidOut(nt, true) && Complete(gf, false) && Complete(nf, true)
    requires Corresponds(gt, nt) && Corresponds(gf, nf)
    ensures Append(gt, gf).Some? <==> Append(nt, nf).Some?
    ensures Append(nt, nf).Some? ==> Corresponds(Append(gt, gf).value, Append(nt, nf).value)
  {
    hide LaidOut, Align;
    AppendFits(gt, gf, false);
    AppendFits(nt, nf, true);
    LaidOutAligns(gf, false);
    LaidOutAligns(nf, true);
    AlignIsMonotone(gt.size, nt.size, gf.alignment, nf.alignment);
  }

  lemma LaidOutAligns(t: Pod, native: bool)
    requires LaidOut(t, native)
    ensures IsAlignment(t.alignment)
  {
  }

  lemma {:induction false} AppendManyCorresponds(gt: Pod, nt: Pod, gf: Pod, nf: Pod, n: nat)
    requires LaidOut(gt, false) && LaidOut(nt, true) && Complete(gf, false) && Complete(nf, true)
    requires Corresponds(gt, nt) && Corresponds(gf, nf)
    ensures AppendMany(gt, gf, n).Some? <==> AppendMany(nt, nf, n).Some?
    ensures AppendMany(nt, nf, n).Some? ==> Corresponds(AppendMany(gt, gf, n).value, AppendMany(nt, nf, n).value)
    decreases n
  {
    hide LaidOut, Append, Corresponds, Complete;
    if n > 0 {
      AppendCorresponds(gt, nt, gf, nf);
      if Append(nt, nf).Some? {
        AppendKeeps(gt, gf, false);
        AppendKeeps(nt, nf, true);
        AppendManyCorresponds(Append(gt, gf).value, Append(nt, nf).value, gf, nf, n - 1);
      }
    }
  }

  lemma ScalarCorresponds(kind: char)
    requires ScalarSize(kind) > 0
    ensures Corresponds(Scalar(kind, false), Scalar(kind, true))
  {
  }

  lemma ClosedCorresponds(g: Pod, n: Pod)
    requires Corresponds(g, n) && IsAlignment(g.alignment) && IsAlignment(n.alignment)
    ensures Corresponds(Closed(g), Closed(n))
  {
    AlignIsMonotone(g.size, n.size, g.alignment, n.alignment);
  }

  /** One ABI accepts what the other accepts, stops where it stops, and the guest's
      layout is the native one drawn in. */
  ghost predicate Agree(g: Option<(Pod, nat)>, n: Option<(Pod, nat)>) {
    && (g.Some? <==> n.Some?)
    && (n.Some? ==> g.value.1 == n.value.1 && Corresponds(g.value.0, n.value.0))
  }

  lemma {:induction false} ParsesAgree(s: string, at: nat, depth: nat)
    requires at <= |s|
    ensures Agree(Parse(s, at, false, depth), Parse(s, at, true, depth))
    decreases MAX_DEPTH + 1 - depth, 1, 0
  {
    hide Corresponds, Scalar, SkipQualifiers, SkipTo, Complete, ParseArray, ParseFields, LaidOut;
    if depth <= MAX_DEPTH {
      var p := SkipQualifiers(s, at);
      var kind := At(s, p);
      if ScalarSize(kind) != 0 {
        ScalarCorresponds(kind);
      } else if kind == '{' {
        var eq := SkipTo(s, p + 1, "=}");
        if At(s, eq) == '=' {
          EmptyIsLaidOut(false);
          EmptyIsLaidOut(true);
          EmptyCorresponds();
          FieldsAgree(s, eq + 1, depth, EMPTY, EMPTY);
        }
      } else if kind == '[' {
        ArrayParsesAgree(s, p + 1, depth);
      }
    }
  }

  lemma {:induction false} ArrayParsesAgree(s: string, at: nat, depth: nat)
    requires at <= |s| && depth <= MAX_DEPTH
    ensures Agree(ParseArray(s, at, false, depth), ParseArray(s, at, true, depth))
    decreases MAX_DEPTH + 1 - depth, 0, 0
  {
    hide Corresponds, Count, AppendMany, Complete, Parse;
    var counted := Count(s, at, 0);
    if counted.Some? && counted.value.0 > 0 {
      var (count, q) := counted.value;
      ParsesAgree(s, q, depth + 1);
      var g, n := Parse(s, q, false, depth + 1), Parse(s, q, true, depth + 1);
      if n.Some? {
        ParseIsSound(s, q, false, depth + 1);
        ParseIsSound(s, q, true, depth + 1);
        ArraysAgree(g.value.0, n.value.0, count);
      }
    }
  }

  lemma EmptyCorresponds()
    ensures Corresponds(EMPTY, EMPTY)
  {
  }

  lemma ArraysAgree(g: Pod, n: Pod, count: nat)
    requires Complete(g, false) && Complete(n, true) && Corresponds(g, n)
    ensures AppendMany(EMPTY, g, count).Some? <==> AppendMany(EMPTY, n, count).Some?
    ensures AppendMany(EMPTY, n, count).Some? ==>
              Corresponds(AppendMany(EMPTY, g, count).value, AppendMany(EMPTY, n, count).value)
  {
    hide Complete, AppendMany, Corresponds, LaidOut;
    EmptyIsLaidOut(false);
    EmptyIsLaidOut(true);
    EmptyCorresponds();
    AppendManyCorresponds(EMPTY, EMPTY, g, n, count);
  }

  lemma {:induction false} FieldsAgree(s: string, at: nat, depth: nat, gt: Pod, nt: Pod)
    requires at <= |s| && depth <= MAX_DEPTH && LaidOut(gt, false) && LaidOut(nt, true) && Corresponds(gt, nt)
    ensures Agree(ParseFields(s, at, false, depth, gt), ParseFields(s, at, true, depth, nt))
    decreases MAX_DEPTH + 1 - depth, 0, |s| - at
  {
    hide LaidOut, SkipFieldName, Append, Closed, Complete, Parse;
    if At(s, at) == '}' {
      LaidOutAligns(gt, false);
      LaidOutAligns(nt, true);
      ClosedCorresponds(gt, nt);
      assert gt.fields == [] <==> nt.fields == [];
    } else if At(s, at) != '\0' && SkipFieldName(s, at).Some? {
      var p := SkipFieldName(s, at).value;
      ParsesAgree(s, p, depth + 1);
      var g, n := Parse(s, p, false, depth + 1), Parse(s, p, true, depth + 1);
      if n.Some? {
        ParseIsSound(s, p, false, depth + 1);
        ParseIsSound(s, p, true, depth + 1);
        AppendCorresponds(gt, nt, g.value.0, n.value.0);
        if Append(nt, n.value.0).Some? {
          AppendKeeps(gt, g.value.0, false);
          AppendKeeps(nt, n.value.0, true);
          FieldsAgree(s, n.value.1, depth, Append(gt, g.value.0).value, Append(nt, n.value.0).value);
        }
      }
    }
  }

  /** An encoding is accepted for both ABIs or for neither, with the same fields in
      order, none further out for the guest; each layout is aligned, ordered, disjoint
      and within a size of at most 256 that is a multiple of the alignment. */
  lemma LayoutsCorrespond(s: string)
    ensures StructType(s, false).Some? <==> StructType(s, true).Some?
    ensures StructType(s, true).Some? ==>
      && Corresponds(StructType(s, false).value, StructType(s, true).value)
      && Complete(StructType(s, false).value, false) && Complete(StructType(s, true).value, true)
  {
    hide Parse, Corresponds, Complete;
    var p := SkipQualifiers(s, 0);
    ParsesAgree(s, p, 0);
    if Parse(s, p, true, 0).Some? {
      ParseIsSound(s, p, false, 0);
      ParseIsSound(s, p, true, 0);
    }
  }

  // ----- The parser as it runs -----------------------------------------------------------------

  method SkipWhileQualifier(s: string, at: nat) returns (p: nat)
    ensures p == SkipQualifiers(s, at)
  {
    p := at;
    while p < |s| && s[p] in "rnNoORVA"
      invariant SkipQualifiers(s, p) == SkipQualifiers(s, at)
    {
      p := p + 1;
    }
  }

  method FindStop(s: string, at: nat, stops: string) returns (p: nat)
    ensures p == SkipTo(s, at, stops)
  {
    p := at;
    while At(s, p) != '\0' && At(s, p) !in stops
      invariant SkipTo(s, p, stops) == SkipTo(s, at, stops)
      decreases |s| - p
    {
      p := p + 1;
    }
  }

  method ReadCount(s: string, at: nat) returns (r: Option<(nat, nat)>)
    ensures r == Count(s, at, 0)
  {
    var count: nat, p: nat := 0, at;
    while IsDigit(At(s, p))
      invariant Count(s, p, count) == Count(s, at, 0)
      decreases |s| - p
    {
      count := count * 10 + (At(s, p) as int - '0' as int);
      p := p + 1;
      if count > MAX_FIELDS { return None; }
    }
    return Some((count, p));
  }

  method AppendTo(t: Pod, f: Pod) returns (r: Option<Pod>)
    ensures r == Append(t, f)
  {
    var offset := Align(t.size, f.alignment);
    if offset + f.size > MAX_SIZE || |t.fields| + |f.fields| > MAX_FIELDS { return None; }
    var fields := t.fields;
    for i := 0 to |f.fields|
      invariant fields == t.fields + Shifted(f.fields, offset)[..i]
    {
      assert Shifted(f.fields, offset)[..i + 1] == Shifted(f.fields, offset)[..i] + [Shifted(f.fields, offset)[i]];
      fields := fields + [Field(f.fields[i].kind, f.fields[i].offset + offset)];
    }
    assert Shifted(f.fields, offset)[..|f.fields|] == Shifted(f.fields, offset);
    return Some(Pod(offset + f.size, if t.alignment < f.alignment then f.alignment else t.alignment, fields));
  }

  method Repeat(element: Pod, count: nat) returns (r: Option<Pod>)
    ensures r == AppendMany(EMPTY, element, count)
  {
    var t := EMPTY;
    var i := 0;
    while i < count
      invariant 0 <= i <= count && AppendMany(t, element, count - i) == AppendMany(EMPTY, element, count)
    {
      var next := AppendTo(t, element);
      if next.None? { return None; }
      t := next.value;
      i := i + 1;
    }
    return Some(t);
  }

  method ParsePod(s: string, at: nat, native: bool, depth: nat) returns (r: Option<(Pod, nat)>)
    requires at <= |s|
    ensures r == Parse(s, at, native, depth)
    decreases MAX_DEPTH + 1 - depth, 1
  {
    hide SkipQualifiers, SkipTo, Count, AppendMany;
    if depth > MAX_DEPTH { return None; }
    var p := SkipWhileQualifier(s, at);
    var kind := At(s, p);
    if ScalarSize(kind) != 0 {
      return Some((Scalar(kind, native), p + 1));
    } else if kind == '{' {
      p := FindStop(s, p + 1, "=}");
      if At(s, p) != '=' { return None; }
      r := ParseMembers(s, p + 1, native, depth);
    } else if kind == '[' {
      var counted := ReadCount(s, p + 1);
      if counted.None? || counted.value.0 == 0 { return None; }
      var element := ParsePod(s, counted.value.1, native, depth + 1);
      if element.None? || At(s, element.value.1) != ']' { return None; }
      var t := Repeat(element.value.0, counted.value.0);
      if t.None? { return None; }
      return Some((t.value, element.value.1 + 1));
    } else {
      return None;
    }
  }

  method ParseMembers(s: string, at: nat, native: bool, depth: nat) returns (r: Option<(Pod, nat)>)
    requires at <= |s| && depth <= MAX_DEPTH
    ensures r == ParseFields(s, at, native, depth, EMPTY)
    decreases MAX_DEPTH + 1 - depth, 0
  {
    hide SkipTo, Append, Parse, Closed;
    var t, p := EMPTY, at;
    while At(s, p) != '\0' && At(s, p) != '}'
      invariant p <= |s| && ParseFields(s, p, native, depth, t) == ParseFields(s, at, native, depth, EMPTY)
      decreases |s| - p
    {
      var q := p;
      if At(s, q) == '"' {
        q := FindStop(s, q + 1, "\"");
        if At(s, q) != '"' { return None; }
        q := q + 1;
      }
      assert SkipFieldName(s, p) == Some(q);
      var field := ParsePod(s, q, native, depth + 1);
      if field.None? { return None; }
      var next := AppendTo(t, field.value.0);
      if next.None? { return None; }
      t, p := next.value, field.value.1;
    }
    if At(s, p) != '}' || t.fields == [] { return None; }
    return Some((Closed(t), p + 1));
  }

  /** The entry point: a whole encoding of one struct. */
  method ParseStruct(s: string, native: bool) returns (r: Option<Pod>)
    ensures r == StructType(s, native)
    ensures r.Some? ==> Complete(r.value, native) && StructType(s, !native).Some?
  {
    hide Parse, Complete, Corresponds;
    LayoutsCorrespond(s);
    var p := SkipWhileQualifier(s, 0);
    if At(s, p) != '{' { return None; }
    var parsed := ParsePod(s, p, native, 0);
    if parsed.None? || At(s, parsed.value.1) != '\0' { return None; }
    return Some(parsed.value.0);
  }
}
