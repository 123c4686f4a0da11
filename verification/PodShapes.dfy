/**
 Types as trees, and their encodings: which of them the parser accepts, and that it
 finds in each the scalars the type is made of, laid out by the rules of C.
 */
module PodShapes {
  import opened Wrappers
  import opened PodType
  import Bits

  /** A type with the qualifiers written before it. */
  datatype Shape = Shape(qualifiers: string, core: Core)
  datatype Core = Leaf(kind: char) | Record(name: string, members: seq<Member>) | Vector(count: nat, element: Shape)

  /** A member of a struct; its name may be left out. */
  datatype Member = Member(name: Option<string>, shape: Shape)

  /** Objective-C scalars and their sizes, the same in both ABIs. */
  const SIZES: map<char, nat> :=
    map['B' := 1, 'c' := 1, 'C' := 1, 's' := 2, 'S' := 2, 'i' := 4, 'I' := 4, 'l' := 4, 'L' := 4, 'f' := 4,
        'q' := 8, 'Q' := 8, 'd' := 8]

  predicate AllQualifiers(q: string) {
    forall i :: 0 <= i < |q| ==> q[i] in "rnNoORVA"
  }

  /** A name that none of these characters, and no NUL, ends. */
  predicate NameOk(name: string, stops: string) {
    forall i :: 0 <= i < |name| ==> name[i] != '\0' && name[i] !in stops
  }

  predicate MemberNameOk(m: Member) {
    m.name.Some? ==> NameOk(m.name.value, "\"")
  }

  /** Scalars the parser knows, structs with members, arrays of 1 to 32 elements. */
  predicate Proper(t: Shape) {
    AllQualifiers(t.qualifiers) && ProperCore(t.core)
  }

  predicate ProperCore(c: Core) {
    match c
    case Leaf(kind) => kind in SIZES
    case Record(name, members) => NameOk(name, "=}") && members != [] && AllProper(members)
    case Vector(count, element) => 1 <= count <= MAX_FIELDS && Proper(element)
  }

  predicate AllProper(ms: seq<Member>) {
    ms == [] || (ProperMember(ms[0]) && AllProper(ms[1..]))
  }

  predicate ProperMember(m: Member) {
    MemberNameOk(m) && Proper(m.shape)
  }

  /** How many levels of nesting lie below. */
  function Height(t: Shape): nat {
    match t.core
    case Leaf(_) => 0
    case Record(_, members) => 1 + Tallest(members)
    case Vector(_, element) => 1 + Height(element)
  }

  function Tallest(ms: seq<Member>): nat {
    if ms == [] then 0
    else if MemberHeight(ms[0]) < Tallest(ms[1..]) then Tallest(ms[1..]) else MemberHeight(ms[0])
  }

  function MemberHeight(m: Member): nat {
    Height(m.shape)
  }

  /** The scalars of a type, in order. */
  function Leaves(t: Shape): seq<char> {
    match t.core
    case Leaf(kind) => [kind]
    case Record(_, members) => AllLeaves(members)
    case Vector(count, element) => Repeated(Leaves(element), count)
  }

  function AllLeaves(ms: seq<Member>): seq<char> {
    if ms == [] then [] else MemberLeaves(ms[0]) + AllLeaves(ms[1..])
  }

  function MemberLeaves(m: Member): seq<char> {
    Leaves(m.shape)
  }

  function Repeated(s: seq<char>, n: nat): seq<char> {
    if n == 0 then [] else s + Repeated(s, n - 1)
  }

  // ----- Layouts by the rules of C ---------------------------------------------------------

  /** The least multiple of `a` that is not below `x`. */
  function Round(x: nat, a: nat): nat
    requires a > 0
  {
    (x + (a - 1)) / a * a
  }

  function Moved(fields: seq<Field>, base: nat): (r: seq<Field>)
    ensures |r| == |fields|
    ensures forall i :: 0 <= i < |r| ==> r[i] == Field(fields[i].kind, base + fields[i].offset)
  {
    seq(|fields|, i requires 0 <= i < |fields| => Field(fields[i].kind, base + fields[i].offset))
  }

  /** The next member goes to the next place aligned for it. */
  function Placed(t: Pod, f: Pod): Pod
    requires f.alignment > 0
  {
    var at := Round(t.size, f.alignment);
    Pod(at + f.size, if t.alignment < f.alignment then f.alignment else t.alignment, t.fields + Moved(f.fields, at))
  }

  /** n elements one behind the other. */
  function Copies(f: Pod, n: nat): (r: Pod)
    ensures r.size == n * f.size
  {
    if n == 0 then Pod(0, 1, [])
    else Pod(n * f.size, f.alignment, Copies(f, n - 1).fields + Moved(f.fields, (n - 1) * f.size))
  }

  /** Scalars are aligned to their size, in the guest to at most four; structs to the alignment of
      their widest member, and their size is a multiple of it. */
  ghost function Laid(t: Shape, native: bool): (p: Pod)
    requires Proper(t)
    ensures IsAlignment(p.alignment)
    decreases t, 1
  {
    LaidCore(t.core, native)
  }

  ghost function LaidCore(c: Core, native: bool): (p: Pod)
    requires ProperCore(c)
    ensures IsAlignment(p.alignment)
    decreases c, 1
  {
    match c
    case Leaf(kind) =>
      var n := SIZES[kind];
      Pod(n, if native || n <= 4 then n else 4, [Field(kind, 0)])
    case Record(_, members) => LaidAll(members, Pod(0, 1, []), native)
    case Vector(count, element) => Copies(Laid(element, native), count)
  }

  ghost function LaidAll(ms: seq<Member>, t: Pod, native: bool): (p: Pod)
    requires AllProper(ms) && IsAlignment(t.alignment)
    ensures IsAlignment(p.alignment)
    decreases ms, 0
  {
    if ms == [] then t.(size := Round(t.size, t.alignment))
    else LaidAll(ms[1..], Placed(t, MemberLaid(ms[0], native)), native)
  }

  ghost function MemberLaid(m: Member, native: bool): (p: Pod)
    requires ProperMember(m)
    ensures IsAlignment(p.alignment)
    decreases m, 0
  {
    Laid(m.shape, native)
  }

  /** Padding is as small as the alignment allows. */
  lemma RoundIsLeast(x: nat, a: nat, y: nat)
    requires a > 0
    ensures x <= Round(x, a) < x + a && Round(x, a) % a == 0
    ensures x <= y && y % a == 0 ==> Round(x, a) <= y
  {
    hide Round, Bits.AlignUp;
    RoundIsAlignUp(x, a);
    if x <= y && y % a == 0 { Bits.AlignUpIsLeast(x, a, y); }
  }

  lemma RoundIsAlignUp(x: nat, a: nat)
    requires a > 0
    ensures Round(x, a) == Bits.AlignUp(x, a)
  {
    var y := x + (a - 1);
    assert y == y / a * a + y % a;
  }

  lemma AlignRounds(x: nat, a: nat)
    requires IsAlignment(a)
    ensures Align(x, a) == Round(x, a)
  {
    hide Align, Round, Bits.AlignUp;
    AlignIs(x, a);
    RoundIsAlignUp(x, a);
  }

  lemma AppendPlaces(t: Pod, f: Pod)
    requires Append(t, f).Some? && IsAlignment(f.alignment)
    ensures Append(t, f).value == Placed(t, f)
  {
    hide Align, Round;
    AlignRounds(t.size, f.alignment);
    assert Shifted(f.fields, Align(t.size, f.alignment)) == Moved(f.fields, Round(t.size, f.alignment));
  }

  lemma ClosedRounds(t: Pod)
    requires IsAlignment(t.alignment)
    ensures Closed(t) == t.(size := Round(t.size, t.alignment))
  {
    hide Align, Round;
    AlignRounds(t.size, t.alignment);
  }

  lemma ScalarIsLaid(kind: char, native: bool)
    ensures kind in SIZES <==> ScalarSize(kind) > 0
    ensures kind in SIZES ==>
              var n := SIZES[kind];
              Scalar(kind, native) == Pod(n, if native || n <= 4 then n else 4, [Field(kind, 0)])
  {
  }

  lemma CopiesNext(f: Pod, k: nat)
    requires IsAlignment(f.alignment) && f.size % f.alignment == 0
    ensures Placed(Copies(f, k), f) == Copies(f, k + 1)
  {
    hide Round;
    Multiples(k, f.size, f.alignment);
    RoundIsLeast(k * f.size, f.alignment, k * f.size);
    assert (k + 1) * f.size == k * f.size + f.size;
  }

  lemma {:induction false} Multiples(k: nat, n: nat, a: nat)
    requires a > 0 && n % a == 0
    ensures (k * n) % a == 0
  {
    var q := n / a;
    assert k * n == (k * q) * a;
    Bits.RemainderIsUnique(k * n, a, k * q, 0);
  }

  function Digit(n: nat): char
    requires n < 10
  {
    '0' + n as char
  }

  /** A count of at most two digits. */
  function Decimal(n: nat): string
    requires n < 100
  {
    if n < 10 then [Digit(n)] else [Digit(n / 10), Digit(n % 10)]
  }

  function Encoding(t: Shape): string
    requires Proper(t)
  {
    t.qualifiers + CoreEncoding(t.core)
  }

  function CoreEncoding(c: Core): string
    requires ProperCore(c)
  {
    match c
    case Leaf(kind) => [kind]
    case Record(name, members) => "{" + name + "=" + AllEncodings(members) + "}"
    case Vector(count, element) => "[" + Decimal(count) + Encoding(element) + "]"
  }

  function Quoted(name: Option<string>): string {
    match name case None => "" case Some(text) => "\"" + text + "\""
  }

  function AllEncodings(ms: seq<Member>): string
    requires AllProper(ms)
  {
    if ms == [] then "" else MemberEncoding(ms[0]) + AllEncodings(ms[1..])
  }

  function MemberEncoding(m: Member): string
    requires ProperMember(m)
  {
    Quoted(m.name) + Encoding(m.shape)
  }

  function Kinds(fields: seq<Field>): (r: seq<char>)
    ensures |r| == |fields|
    ensures forall i :: 0 <= i < |r| ==> r[i] == fields[i].kind
  {
    seq(|fields|, i requires 0 <= i < |fields| => fields[i].kind)
  }

  /** `s` holds `e` at `at`. */
  predicate Holds(s: string, at: nat, e: string) {
    at + |e| <= |s| && s[at..at + |e|] == e
  }

  /** The parser finds the type `t`, made of `leaves`, up to `end`. */
  predicate Found(r: Option<(Pod, nat)>, t: Pod, leaves: seq<char>, end: nat) {
    r == Some((t, end)) && Kinds(t.fields) == leaves
  }

  // ----- Characters ------------------------------------------------------------------------

  lemma HoldsParts(s: string, at: nat, a: string, b: string)
    requires Holds(s, at, a + b)
    ensures Holds(s, at, a) && Holds(s, at + |a|, b)
  {
    var e := s[at..at + |a| + |b|];
    assert e[..|a|] == a && e[|a|..] == b;
    assert s[at..at + |a|] == e[..|a|] && s[at + |a|..at + |a| + |b|] == e[|a|..];
  }

  lemma HoldsChar(s: string, at: nat, c: char)
    requires Holds(s, at, [c])
    ensures At(s, at) == c
  {
    assert s[at..at + 1][0] == c;
  }

  /** A character the unqualified part of an encoding can begin with. */
  predicate Opens(c: char) {
    ScalarSize(c) > 0 || c == '{' || c == '['
  }

  lemma OpensIsPlain(s: string, at: nat)
    requires Opens(At(s, at))
    ensures at < |s| && SkipQualifiers(s, at) == at && !IsDigit(At(s, at))
    ensures At(s, at) != '}' && At(s, at) != '\0' && At(s, at) != '"'
  {
  }

  lemma CoreOpens(c: Core)
    requires ProperCore(c)
    ensures CoreEncoding(c) != "" && Opens(CoreEncoding(c)[0])
  {
  }

  lemma CoreAt(s: string, at: nat, c: Core)
    requires ProperCore(c) && Holds(s, at, CoreEncoding(c))
    ensures at < |s| && Opens(At(s, at)) && At(s, at) == CoreEncoding(c)[0]
  {
    CoreOpens(c);
    assert s[at..at + |CoreEncoding(c)|][0] == s[at];
  }

  lemma {:induction false} QualifiersAreSkipped(s: string, at: nat, q: string)
    requires AllQualifiers(q) && Holds(s, at, q) && SkipQualifiers(s, at + |q|) == at + |q|
    ensures SkipQualifiers(s, at) == at + |q|
    decreases |q|
  {
    if q != "" {
      assert q == [q[0]] + q[1..];
      HoldsParts(s, at, [q[0]], q[1..]);
      HoldsChar(s, at, q[0]);
      QualifiersAreSkipped(s, at + 1, q[1..]);
    }
  }

  /** Where an encoding stands, something other than a digit, a quote, a closing brace or
      the end is read, and the qualifiers are skipped. */
  lemma EncodingAt(s: string, at: nat, t: Shape)
    requires Proper(t) && Holds(s, at, Encoding(t))
    ensures var p := at + |t.qualifiers|;
      && at <= |s| && p <= |s| && Holds(s, p, CoreEncoding(t.core)) && Opens(At(s, p))
      && SkipQualifiers(s, at) == p && SkipQualifiers(s, p) == p
    ensures !IsDigit(At(s, at)) && At(s, at) != '}' && At(s, at) != '\0' && At(s, at) != '"'
  {
    hide Opens, CoreEncoding, Holds, ProperCore;
    var q := t.qualifiers;
    HoldsParts(s, at, q, CoreEncoding(t.core));
    CoreAt(s, at + |q|, t.core);
    OpensIsPlain(s, at + |q|);
    QualifiersAreSkipped(s, at, q);
    if q != "" {
      assert q == [q[0]] + q[1..];
      HoldsParts(s, at, [q[0]], q[1..]);
      HoldsChar(s, at, q[0]);
    }
  }

  /** A name is skipped up to the character that ends it. */
  lemma {:induction false} NameIsSkipped(s: string, at: nat, name: string, stops: string)
    requires NameOk(name, stops) && Holds(s, at, name) && At(s, at + |name|) in stops
    ensures SkipTo(s, at, stops) == at + |name|
    decreases |name|
  {
    if name != "" {
      assert name == [name[0]] + name[1..];
      HoldsParts(s, at, [name[0]], name[1..]);
      HoldsChar(s, at, name[0]);
      NameIsSkipped(s, at + 1, name[1..], stops);
    }
  }

  /** Qualifiers change nothing about what is parsed behind them. */
  lemma ParseSkips(s: string, at: nat, p: nat, native: bool, depth: nat)
    requires at <= |s| && p <= |s| && SkipQualifiers(s, at) == p && SkipQualifiers(s, p) == p
    ensures Parse(s, at, native, depth) == Parse(s, p, native, depth)
  {
  }

  lemma DigitIsRead(n: nat)
    requires n < 10
    ensures IsDigit(Digit(n)) && Digit(n) as int - '0' as int == n
  {
  }

  lemma CountIsRead(s: string, at: nat, n: nat)
    requires 1 <= n <= MAX_FIELDS && Holds(s, at, Decimal(n)) && !IsDigit(At(s, at + |Decimal(n)|))
    ensures Count(s, at, 0) == Some((n, at + |Decimal(n)|))
  {
    var e := s[at..at + |Decimal(n)|];
    if n < 10 {
      assert e[0] == s[at];
      DigitIsRead(n);
      assert Count(s, at + 1, n) == Some((n, at + 1));
    } else {
      assert e[0] == s[at] && e[1] == s[at + 1];
      DigitIsRead(n / 10);
      DigitIsRead(n % 10);
      assert Count(s, at + 2, n) == Some((n, at + 2));
      assert Count(s, at + 1, n / 10) == Some((n, at + 2));
    }
  }

  // ----- Appending keeps the scalars in order -----------------------------------------------

  lemma AppendKinds(t: Pod, f: Pod)
    requires Append(t, f).Some?
    ensures Kinds(Append(t, f).value.fields) == Kinds(t.fields) + Kinds(f.fields)
  {
  }

  lemma {:induction false} AppendManyKinds(t: Pod, f: Pod, n: nat, native: bool)
    requires LaidOut(t, native) && Complete(f, native) && |t.fields| + |Repeated(Kinds(f.fields), n)| <= MAX_FIELDS
    ensures AppendMany(t, f, n).Some?
    ensures Kinds(AppendMany(t, f, n).value.fields) == Kinds(t.fields) + Repeated(Kinds(f.fields), n)
    decreases n
  {
    hide LaidOut, Append, Complete;
    if n > 0 {
      AppendFits(t, f, native);
      AppendKinds(t, f);
      AppendKeeps(t, f, native);
      AppendManyKinds(Append(t, f).value, f, n - 1, native);
      assert Kinds(t.fields) + Kinds(f.fields) + Repeated(Kinds(f.fields), n - 1)
             == Kinds(t.fields) + (Kinds(f.fields) + Repeated(Kinds(f.fields), n - 1));
    } else {
      assert Kinds(t.fields) + [] == Kinds(t.fields);
    }
  }

  lemma NoCopies(f: Pod)
    ensures Copies(f, 0) == EMPTY
  {
  }

  lemma {:induction false} AppendManyCopies(f: Pod, k: nat, n: nat, native: bool)
    requires Complete(f, native) && AppendMany(Copies(f, k), f, n).Some?
    ensures AppendMany(Copies(f, k), f, n).value == Copies(f, k + n)
    decreases n
  {
    hide LaidOut, Append, Copies, Placed;
    if n > 0 {
      LaidOutAligned(f, native);
      AppendPlaces(Copies(f, k), f);
      CopiesNext(f, k);
      AppendManyCopies(f, k + 1, n - 1, native);
    }
  }

  lemma RepeatedIsLonger(s: seq<char>, n: nat)
    requires n > 0
    ensures |s| <= |Repeated(s, n)|
  {
  }

  // ----- Every proper type within the limits is accepted ------------------------------------

  lemma {:induction false} ShapeParses(t: Shape, s: string, at: nat, native: bool, depth: nat)
    requires Proper(t) && Holds(s, at, Encoding(t)) && depth + Height(t) <= MAX_DEPTH && |Leaves(t)| <= MAX_FIELDS
    ensures at <= |s| && Found(Parse(s, at, native, depth), Laid(t, native), Leaves(t), at + |Encoding(t)|)
    decreases t, 0
  {
    hide SkipQualifiers, ParseArray, ParseFields, Holds, Opens;
    EncodingAt(s, at, t);
    var p := at + |t.qualifiers|;
    ParseSkips(s, at, p, native, depth);
    match t.core
    case Leaf(kind) =>
      CoreAt(s, p, t.core);
      ScalarIsLaid(kind, native);
      assert Kinds(Scalar(kind, native).fields) == [kind];
    case Record(name, members) =>
      RecordParses(name, members, s, p, native, depth);
    case Vector(count, element) =>
      VectorParses(count, element, s, p, native, depth);
  }

  lemma {:induction false} RecordParses(name: string, members: seq<Member>, s: string, at: nat, native: bool,
      depth: nat)
    requires NameOk(name, "=}") && members != [] && AllProper(members)
    requires at <= |s| && Holds(s, at, "{" + name + "=" + AllEncodings(members) + "}")
    requires depth + 1 + Tallest(members) <= MAX_DEPTH && |AllLeaves(members)| <= MAX_FIELDS
    requires SkipQualifiers(s, at) == at
    ensures Found(Parse(s, at, native, depth), LaidAll(members, Pod(0, 1, []), native), AllLeaves(members),
                  at + |name| + |AllEncodings(members)| + 3)
    decreases members, 1
  {
    hide SkipQualifiers, ParseFields, AllEncodings, AllLeaves, Tallest, SkipTo, Holds;
    RecordText(s, at, name, AllEncodings(members));
    NameIsSkipped(s, at + 1, name, "=}");
    EmptyIsLaidOut(native);
    MembersParse(members, s, at + |name| + 2, native, depth, EMPTY);
    assert Kinds(EMPTY.fields) + AllLeaves(members) == AllLeaves(members);
  }

  lemma RecordText(s: string, at: nat, name: string, e: string)
    requires Holds(s, at, "{" + name + "=" + e + "}")
    ensures At(s, at)
            == '{' && Holds(s, at + 1, name) && At(s, at + 1 + |name|) == '=' && Holds(s, at + |name| + 2, e + "}")
  {
    hide Holds;
    assert "{" + name + "=" + e + "}" == "{" + (name + ("=" + (e + "}")));
    HoldsParts(s, at, "{", name + ("=" + (e + "}")));
    HoldsParts(s, at + 1, name, "=" + (e + "}"));
    HoldsParts(s, at + 1 + |name|, "=", e + "}");
    HoldsChar(s, at, '{');
    HoldsChar(s, at + 1 + |name|, '=');
  }

  lemma {:induction false} MembersParse(ms: seq<Member>, s: string, at: nat, native: bool, depth: nat, acc: Pod)
    requires AllProper(ms) && Holds(s, at, AllEncodings(ms) + "}") && depth + 1 + Tallest(ms) <= MAX_DEPTH
    requires LaidOut(acc, native) && |acc.fields| + |AllLeaves(ms)| <= MAX_FIELDS && (acc.fields != [] || ms != [])
    ensures at <= |s|
    ensures IsAlignment(acc.alignment)
    ensures Found(ParseFields(s, at, native, depth, acc), LaidAll(ms, acc, native), Kinds(acc.fields) + AllLeaves(ms),
                  at + |AllEncodings(ms)| + 1)
    decreases ms, 0
  {
    hide LaidOut, ParseFields, Holds, MemberEncoding, MemberLeaves, MemberHeight, ProperMember, Kinds, MemberLaid,
         Placed, Round;
    LaidOutAligned(acc, native);
    if ms == [] {
      assert AllEncodings(ms) + "}" == "}";
      MembersEnd(s, at, native, depth, acc);
      assert Kinds(acc.fields) + [] == Kinds(acc.fields);
    } else {
      var e, rest := MemberEncoding(ms[0]), AllEncodings(ms[1..]);
      assert AllEncodings(ms) + "}" == e + (rest + "}");
      HoldsParts(s, at, e, rest + "}");
      var next := MemberParses(ms[0], s, at, native, depth, acc);
      MembersParse(ms[1..], s, at + |e|, native, depth, next);
      assert Kinds(acc.fields) + MemberLeaves(ms[0]) + AllLeaves(ms[1..])
             == Kinds(acc.fields) + (MemberLeaves(ms[0]) + AllLeaves(ms[1..]));
    }
  }

  /** One member is read and added to what was read before. */
  lemma {:induction false} MemberParses(m: Member, s: string, at: nat, native: bool, depth: nat,
      acc: Pod) returns (next: Pod)
    requires ProperMember(m) && Holds(s, at, MemberEncoding(m)) && depth + 1 + MemberHeight(m) <= MAX_DEPTH
    requires LaidOut(acc, native) && |acc.fields| + |MemberLeaves(m)| <= MAX_FIELDS
    ensures LaidOut(next, native) && next.fields != [] && Kinds(next.fields) == Kinds(acc.fields) + MemberLeaves(m)
    ensures next == Placed(acc, MemberLaid(m, native))
    ensures at + |MemberEncoding(m)| <= |s|
    ensures ParseFields(s, at, native, depth, acc) == ParseFields(s, at + |MemberEncoding(m)|, native, depth, next)
    decreases m, 0
  {
    hide LaidOut, Append, Complete, Parse, Leaves, Height, Encoding, ParseFields, Holds, SkipFieldName, Quoted, Proper,
         MemberNameOk, Laid, Placed;
    var name, e := Quoted(m.name), Encoding(m.shape);
    HoldsParts(s, at, name, e);
    var p := at + |name|;
    EncodingAt(s, p, m.shape);
    FieldNameIsSkipped(s, at, m);
    ShapeParses(m.shape, s, p, native, depth + 1);
    var f := Parse(s, p, native, depth + 1).value.0;
    ParseIsSound(s, p, native, depth + 1);
    MemberStep(s, at, p, native, depth, acc, f, p + |e|);
    next := Append(acc, f).value;
    AppendPlaces(acc, f);
  }

  lemma LaidOutAligned(t: Pod, native: bool)
    requires LaidOut(t, native)
    ensures IsAlignment(t.alignment)
  {
  }

  lemma QuotedText(s: string, at: nat, text: string)
    requires Holds(s, at, "\"" + text + "\"")
    ensures At(s, at) == '"' && Holds(s, at + 1, text) && At(s, at + 1 + |text|) == '"'
  {
    hide Holds;
    assert "\"" + text + "\"" == "\"" + (text + "\"");
    HoldsParts(s, at, "\"", text + "\"");
    HoldsParts(s, at + 1, text, "\"");
    HoldsChar(s, at, '"');
    HoldsChar(s, at + 1 + |text|, '"');
  }

  /** A quoted name, or nothing, is skipped before a member. */
  lemma FieldNameIsSkipped(s: string, at: nat, m: Member)
    requires MemberNameOk(m) && Holds(s, at, Quoted(m.name))
    requires var next := At(s, at + |Quoted(m.name)|); next != '"' && next != '}' && next != '\0'
    ensures SkipFieldName(s, at) == Some(at + |Quoted(m.name)|) && At(s, at) != '}' && At(s, at) != '\0'
  {
    hide Holds, SkipTo, NameOk, At;
    if m.name.Some? {
      QuotedText(s, at, m.name.value);
      NameIsSkipped(s, at + 1, m.name.value, "\"");
    }
  }

  lemma MembersEnd(s: string, at: nat, native: bool, depth: nat, acc: Pod)
    requires Holds(s, at, "}") && depth <= MAX_DEPTH && acc.fields != [] && IsAlignment(acc.alignment)
    ensures Found(ParseFields(s, at, native, depth, acc), acc.(size := Round(acc.size, acc.alignment)),
                  Kinds(acc.fields), at + 1)
  {
    hide Round, Align;
    ClosedRounds(acc);
    HoldsChar(s, at, '}');
    assert Kinds(Closed(acc).fields) == Kinds(acc.fields);
  }

  /** One member is read and appended. */
  lemma MemberStep(s: string, at: nat, p: nat, native: bool, depth: nat, acc: Pod, f: Pod, next: nat)
    requires depth <= MAX_DEPTH && at <= p <= |s|
    requires At(s, at) != '}' && At(s, at) != '\0' && SkipFieldName(s, at) == Some(p)
    requires Parse(s, p, native, depth + 1) == Some((f, next))
    requires LaidOut(acc, native) && Complete(f, native) && |acc.fields| + |f.fields| <= MAX_FIELDS
    ensures Append(acc, f).Some? && LaidOut(Append(acc, f).value, native)
    ensures Append(acc, f).value.fields != []
    ensures Kinds(Append(acc, f).value.fields) == Kinds(acc.fields) + Kinds(f.fields)
    ensures next <= |s|
    ensures ParseFields(s, at, native, depth, acc) == ParseFields(s, next, native, depth, Append(acc, f).value)
  {
    hide LaidOut, Append, Complete, Parse, SkipFieldName;
    AppendFits(acc, f, native);
    AppendKinds(acc, f);
    AppendKeeps(acc, f, native);
    CompleteHasFields(f, native);
  }

  lemma CompleteHasFields(f: Pod, native: bool)
    requires Complete(f, native)
    ensures f.fields != []
  {
  }

  lemma {:induction false} VectorParses(count: nat, element: Shape, s: string, at: nat, native: bool, depth: nat)
    requires at <= |s| && 1 <= count <= MAX_FIELDS && Proper(element)
    requires Holds(s, at, "[" + Decimal(count) + Encoding(element) + "]")
    requires depth + 1 + Height(element) <= MAX_DEPTH && |Repeated(Leaves(element), count)| <= MAX_FIELDS
    requires SkipQualifiers(s, at) == at
    ensures Found(Parse(s, at, native, depth), Copies(Laid(element, native), count),
                  Repeated(Leaves(element), count), at + |Decimal(count)| + |Encoding(element)| + 2)
    decreases element, 1
  {
    hide SkipQualifiers, AppendMany, Leaves, Height, Encoding, Decimal, Complete, Count, Repeated, Holds, ParseArray,
         Laid, Copies;
    var d, e := Decimal(count), Encoding(element);
    var q := at + 1 + |d|;
    VectorText(s, at, d, e);
    EncodingAt(s, q, element);
    CountIsRead(s, at + 1, count);
    RepeatedIsLonger(Leaves(element), count);
    ShapeParses(element, s, q, native, depth + 1);
    ArrayParses(s, at + 1, native, depth, count, q);
  }

  lemma VectorText(s: string, at: nat, d: string, e: string)
    requires Holds(s, at, "[" + d + e + "]")
    ensures At(s, at) == '[' && Holds(s, at + 1, d) && Holds(s, at + 1 + |d|, e) && At(s, at + 1 + |d| + |e|) == ']'
  {
    hide Holds;
    assert "[" + d + e + "]" == "[" + (d + (e + "]"));
    HoldsParts(s, at, "[", d + (e + "]"));
    HoldsParts(s, at + 1, d, e + "]");
    HoldsParts(s, at + 1 + |d|, e, "]");
    HoldsChar(s, at, '[');
    HoldsChar(s, at + 1 + |d| + |e|, ']');
  }

  lemma ArrayParses(s: string, at: nat, native: bool, depth: nat, count: nat, q: nat)
    requires at <= q <= |s| && depth <= MAX_DEPTH && count > 0 && Count(s, at, 0) == Some((count, q))
    requires Parse(s, q, native, depth + 1).Some? && At(s, Parse(s, q, native, depth + 1).value.1) == ']'
    requires |Repeated(Kinds(Parse(s, q, native, depth + 1).value.0.fields), count)| <= MAX_FIELDS
    ensures var (f, end) := Parse(s, q, native, depth + 1).value;
      Found(ParseArray(s, at, native, depth), Copies(f, count), Repeated(Kinds(f.fields), count), end + 1)
  {
    hide Parse, AppendMany, Count, Complete, Repeated, Copies;
    var f := Parse(s, q, native, depth + 1).value.0;
    ParseIsSound(s, q, native, depth + 1);
    EmptyIsLaidOut(native);
    AppendManyKinds(EMPTY, f, count, native);
    NoCopies(f);
    AppendManyCopies(f, 0, count, native);
    assert Kinds(EMPTY.fields) + Repeated(Kinds(f.fields), count) == Repeated(Kinds(f.fields), count);
  }

  // ----- Every other is refused -------------------------------------------------------------

  /** Nested deeper than eight levels, or more than 32 scalars. */
  predicate Exceeds(height: nat, leaves: nat) {
    height > 8 || leaves > 32
  }

  lemma {:induction false} ShapeRefused(t: Shape, s: string, at: nat, native: bool, depth: nat)
    requires Proper(t) && Holds(s, at, Encoding(t)) && Exceeds(depth + Height(t), |Leaves(t)|)
    ensures at <= |s| && Parse(s, at, native, depth) == None
    decreases t, 0
  {
    hide SkipQualifiers, ParseArray, ParseFields, Holds, Opens;
    EncodingAt(s, at, t);
    var p := at + |t.qualifiers|;
    ParseSkips(s, at, p, native, depth);
    if depth <= MAX_DEPTH {
      match t.core
      case Leaf(_) =>
      case Record(name, members) => RecordRefused(name, members, s, p, native, depth);
      case Vector(count, element) => VectorRefused(count, element, s, p, native, depth);
    }
  }

  lemma {:induction false} RecordRefused(name: string, members: seq<Member>, s: string, at: nat, native: bool,
      depth: nat)
    requires NameOk(name, "=}") && members != [] && AllProper(members) && depth <= MAX_DEPTH
    requires at <= |s| && Holds(s, at, "{" + name + "=" + AllEncodings(members) + "}")
    requires Exceeds(depth + 1 + Tallest(members), |AllLeaves(members)|) && SkipQualifiers(s, at) == at
    ensures Parse(s, at, native, depth) == None
    decreases members, 1
  {
    hide SkipQualifiers, ParseFields, AllEncodings, AllLeaves, Tallest, SkipTo, Holds;
    RecordText(s, at, name, AllEncodings(members));
    NameIsSkipped(s, at + 1, name, "=}");
    EmptyIsLaidOut(native);
    MembersRefused(members, s, at + |name| + 2, native, depth, EMPTY);
  }

  lemma {:induction false} MembersRefused(ms: seq<Member>, s: string, at: nat, native: bool, depth: nat, acc: Pod)
    requires AllProper(ms) && Holds(s, at, AllEncodings(ms) + "}") && LaidOut(acc, native) && ms != []
    requires depth <= MAX_DEPTH && |acc.fields| <= MAX_FIELDS
    requires Exceeds(depth + 1 + Tallest(ms), |acc.fields| + |AllLeaves(ms)|)
    ensures at <= |s| && ParseFields(s, at, native, depth, acc) == None
    decreases ms, 0
  {
    hide LaidOut, ParseFields, Holds, MemberEncoding, MemberLeaves, MemberHeight, ProperMember, Kinds, Placed,
         MemberLaid;
    var m, e, rest := ms[0], MemberEncoding(ms[0]), AllEncodings(ms[1..]);
    assert AllEncodings(ms) + "}" == e + (rest + "}");
    HoldsParts(s, at, e, rest + "}");
    if Exceeds(depth + 1 + MemberHeight(m), |acc.fields| + |MemberLeaves(m)|) {
      MemberRefused(m, s, at, native, depth, acc);
    } else {
      var next := MemberParses(m, s, at, native, depth, acc);
      KindsCount(acc.fields, MemberLeaves(m), next.fields);
      MembersRefused(ms[1..], s, at + |e|, native, depth, next);
    }
  }

  lemma KindsCount(before: seq<Field>, leaves: seq<char>, after: seq<Field>)
    requires Kinds(after) == Kinds(before) + leaves
    ensures |after| == |before| + |leaves|
  {
    assert |Kinds(after)| == |Kinds(before)| + |leaves|;
  }

  lemma {:induction false} MemberRefused(m: Member, s: string, at: nat, native: bool, depth: nat, acc: Pod)
    requires ProperMember(m) && Holds(s, at, MemberEncoding(m)) && LaidOut(acc, native)
    requires depth <= MAX_DEPTH && |acc.fields| <= MAX_FIELDS
    requires Exceeds(depth + 1 + MemberHeight(m), |acc.fields| + |MemberLeaves(m)|)
    ensures at <= |s| && ParseFields(s, at, native, depth, acc) == None
    decreases m, 0
  {
    hide LaidOut, Append, Complete, Parse, Leaves, Height, Encoding, Holds, SkipFieldName, Quoted, Proper, MemberNameOk,
         Laid;
    var name, e := Quoted(m.name), Encoding(m.shape);
    HoldsParts(s, at, name, e);
    var p := at + |name|;
    EncodingAt(s, p, m.shape);
    FieldNameIsSkipped(s, at, m);
    if Exceeds(depth + 1 + Height(m.shape), |Leaves(m.shape)|) {
      ShapeRefused(m.shape, s, p, native, depth + 1);
    } else {
      ShapeParses(m.shape, s, p, native, depth + 1);
      var f := Parse(s, p, native, depth + 1).value.0;
      ParseIsSound(s, p, native, depth + 1);
      AppendFits(acc, f, native);
    }
  }

  lemma {:induction false} AppendManyRefused(t: Pod, f: Pod, n: nat, native: bool)
    requires LaidOut(t, native) && Complete(f, native) && |t.fields| <= MAX_FIELDS
    requires |t.fields| + |Repeated(Kinds(f.fields), n)| > MAX_FIELDS
    ensures AppendMany(t, f, n) == None
    decreases n
  {
    hide LaidOut, Append, Complete;
    if n > 0 {
      AppendFits(t, f, native);
      if |t.fields| + |f.fields| <= MAX_FIELDS {
        AppendKinds(t, f);
        KindsCount(t.fields, Kinds(f.fields), Append(t, f).value.fields);
        AppendKeeps(t, f, native);
        AppendManyRefused(Append(t, f).value, f, n - 1, native);
      }
    }
  }

  lemma {:induction false} VectorRefused(count: nat, element: Shape, s: string, at: nat, native: bool, depth: nat)
    requires at <= |s| && 1 <= count <= MAX_FIELDS && Proper(element) && depth <= MAX_DEPTH
    requires Holds(s, at, "[" + Decimal(count) + Encoding(element) + "]")
    requires Exceeds(depth + 1 + Height(element), |Repeated(Leaves(element), count)|) && SkipQualifiers(s, at) == at
    ensures Parse(s, at, native, depth) == None
    decreases element, 1
  {
    hide SkipQualifiers, AppendMany, Leaves, Height, Encoding, Decimal, Complete, Count, Repeated, Holds, Laid;
    var d, e := Decimal(count), Encoding(element);
    var q := at + 1 + |d|;
    VectorText(s, at, d, e);
    EncodingAt(s, q, element);
    CountIsRead(s, at + 1, count);
    if Exceeds(depth + 1 + Height(element), |Leaves(element)|) {
      ShapeRefused(element, s, q, native, depth + 1);
    } else {
      ShapeParses(element, s, q, native, depth + 1);
      var f := Parse(s, q, native, depth + 1).value.0;
      ParseIsSound(s, q, native, depth + 1);
      EmptyIsLaidOut(native);
      AppendManyRefused(EMPTY, f, count, native);
    }
  }

  /** The encoding of a struct, with whatever names and qualifiers, is accepted for either ABI if and
      only if it is nested at most eight deep and has at most 32 scalars; then its fields are
      exactly those scalars in order, and size, alignment and offsets are those of C. */
  lemma StructsAreAccepted(t: Shape, native: bool)
    requires Proper(t) && t.core.Record?
    ensures StructType(Encoding(t), native).Some? <==> Height(t) <= 8 && |Leaves(t)| <= 32
    ensures StructType(Encoding(t), native).Some? ==>
              var p := StructType(Encoding(t), native).value;
              p == Laid(t, native) && Kinds(p.fields) == Leaves(t) && Complete(p, native)
  {
    hide Parse, Complete, Leaves, Height, SkipQualifiers, Laid;
    var s, p := Encoding(t), |t.qualifiers|;
    assert s[0..0 + |s|] == s;
    EncodingAt(s, 0, t);
    CoreAt(s, p, t.core);
    ParseSkips(s, 0, p, native, 0);
    if Exceeds(Height(t), |Leaves(t)|) {
      ShapeRefused(t, s, 0, native, 0);
    } else {
      ShapeParses(t, s, 0, native, 0);
      ParseIsSound(s, p, native, 0);
    }
  }
}
