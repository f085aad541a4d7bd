/**
 Writing a path back as text (`Path::display`, crates/hxy-calculator/src/parser.rs:130-160) and reading it
 again.
 */
module CalcPaths {
  import opened Splices
  import opened Numerals
  import opened CalcGrammar
  import opened CalcClosers

  function SegmentText(segment: Segment): string {
    match segment
    case Name(name) => "." + name
    case Index(index) => "[" + Decimal(index) + "]"
  }

  function SegmentsText(segments: seq<Segment>): string {
    if segments == [] then "" else SegmentText(segments[0]) + SegmentsText(segments[1..])
  }

  function MetaName(meta: MetaKind): string {
    match meta
    case Offset => "offset"
    case Len => "len"
  }

  function InstanceText(instance: Option<nat>): string {
    if instance.Some? then "#" + Decimal(instance.value) else ""
  }

  function MetaText(meta: Option<MetaKind>): string {
    if meta.Some? then "::" + MetaName(meta.value) else ""
  }

  function Displayed(path: Path): string {
    path.root + (InstanceText(path.instance) + (SegmentsText(path.segments) + MetaText(path.meta)))
  }

  /** A path as the parser can build it: identifiers for names, machine integers for numbers. */
  predicate ValidSegment(segment: Segment) {
    match segment
    case Name(name) => IsIdentifier(name)
    case Index(index) => index <= 0xFFFF_FFFF_FFFF_FFFF
  }

  predicate ValidPath(path: Path) {
    IsIdentifier(path.root)
    && (path.instance.Some? ==> path.instance.value <= 0xFFFF_FFFF)
    && forall segment <- path.segments :: ValidSegment(segment)
  }

  lemma {:induction false} SegmentsTextAppend(a: seq<Segment>, segment: Segment)
    ensures SegmentsText(a + [segment]) == SegmentsText(a) + SegmentText(segment)
  {
    hide SegmentText, SegmentsText;
    NoSegmentsText();
    if a == [] {
      assert [] + [segment] == [segment] && [segment][1..] == [];
      FirstSegment([segment]);
      assert SegmentText(segment) + "" == "" + SegmentText(segment);
    } else {
      SegmentsTextAppend(a[1..], segment);
      FirstSegment(a + [segment]);
      FirstSegment(a);
      assert (a + [segment])[1..] == a[1..] + [segment];
      Joins(SegmentText(a[0]), SegmentsText(a[1..]), SegmentText(segment));
    }
  }

  lemma FirstSegment(a: seq<Segment>)
    requires a != []
    ensures SegmentsText(a) == SegmentText(a[0]) + SegmentsText(a[1..])
  {
    hide SegmentText;
  }

  lemma NoSegmentsText()
    ensures SegmentsText([]) == ""
  {
  }

  lemma Joins(a: string, b: string, c: string)
    ensures a + (b + c) == a + b + c
  {
  }

  lemma NoSegments(s: string, path: Path)
    requires s == path.root + (if path.instance.Some? then "#" + Decimal(path.instance.value) else "")
    ensures s == path.root + InstanceText(path.instance) + SegmentsText(path.segments[..0])
  {
    hide Decimal;
  }

  lemma PushedSegment(s: string, segment: Segment)
    ensures (s + SegmentText(segment)
             == match segment
                case Name(name) => s + "." + name
                case Index(index) => s + "[" + Decimal(index) + "]")
  {
    hide Decimal;
  }

  lemma PushedTail(s: string, path: Path)
    requires s == path.root + InstanceText(path.instance) + SegmentsText(path.segments)
    ensures s + MetaText(path.meta) == Displayed(path)
  {
    hide SegmentsText, InstanceText, MetaText;
  }

  /** `display`. */
  method Display(path: Path) returns (s: string)
    ensures s == Displayed(path)
  {
    hide Decimal, SegmentText, SegmentsText, Displayed;
    s := path.root;
    if path.instance.Some? {
      s := s + "#";
      s := s + Decimal(path.instance.value);
    }
    ghost var start := path.root + InstanceText(path.instance);
    NoSegments(s, path);
    for i := 0 to |path.segments|
      invariant s == start + SegmentsText(path.segments[..i])
    {
      var segment := path.segments[i];
      SegmentsTextAppend(path.segments[..i], segment);
      PushedSegment(s, segment);
      assert path.segments[..i + 1] == path.segments[..i] + [segment];
      match segment
      case Name(name) =>
        s := s + ".";
        s := s + name;
      case Index(index) =>
        s := s + "[";
        s := s + Decimal(index);
        s := s + "]";
    }
    assert path.segments[..|path.segments|] == path.segments;
    PushedTail(s, path);
    if path.meta.Some? {
      s := s + "::";
      s := s + MetaName(path.meta.value);
    }
  }

  // ------------------------------------------------------------ reading back

  lemma ReadsName(name: string, t: string)
    requires IsIdentifier(name) && (t == "" || !IsTail(t[0]))
    ensures Identifier(name + t) == Ok(name, t)
  {
    TakesAll(IsTail, name[1..], t);
    assert (name + t)[1..] == name[1..] + t;
    assert (name + t)[..|name|] == name && (name + t)[|name|..] == t;
  }

  lemma ReadsDigits(n: nat, t: string)
    requires t == "" || !IsDigit(t[0])
    ensures PlainDigits(Decimal(n) + t) == Ok(Decimal(n), t)
  {
    hide Decimal;
    TakesAll(IsDigit, Decimal(n), t);
  }

  /** What may stand after the segments of a path. */
  predicate AfterSegments(t: string) {
    t == "" || (!IsTail(t[0]) && t[0] !in "#.[")
  }

  /** What may stand after a path. */
  predicate EndsPath(t: string) {
    AfterSegments(t) && (t == "" || t[0] != ':')
  }

  lemma SegmentsStart(segments: seq<Segment>, t: string)
    requires AfterSegments(t)
    ensures var u := SegmentsText(segments) + t; u == "" || (!IsTail(u[0]) && u[0] != '#')
  {
    hide Decimal;
    if segments == [] {
      assert "" + t == t;
    }
  }

  lemma ReadsNameSegment(name: string, t: string)
    requires IsIdentifier(name) && (t == "" || !IsTail(t[0]))
    ensures PathSegment(SegmentText(Name(name)) + t) == Ok(Name(name), t)
  {
    hide Identifier;
    var s := SegmentText(Name(name)) + t;
    ReadsName(name, t);
    assert s[1..] == name + t;
  }

  lemma ReadsIndexSegment(index: nat, t: string)
    requires index <= U64_MAX
    ensures PathSegment(SegmentText(Index(index)) + t) == Ok(Index(index), t)
  {
    hide Decimal, PlainDigits, NumberValue;
    var s, u := SegmentText(Index(index)) + t, "]" + t;
    ReadsDigits(index, u);
    DecimalValue(index);
    assert s[1..] == Decimal(index) + u;
    assert u[1..] == t;
  }

  lemma ReadsSegment(segment: Segment, t: string)
    requires ValidSegment(segment) && (t == "" || !IsTail(t[0]))
    ensures PathSegment(SegmentText(segment) + t) == Ok(segment, t)
  {
    hide PathSegment;
    match segment
    case Name(name) => ReadsNameSegment(name, t);
    case Index(index) => ReadsIndexSegment(index, t);
  }

  lemma {:induction false} ReadsSegments(segments: seq<Segment>, t: string)
    requires AfterSegments(t) && forall segment <- segments :: ValidSegment(segment)
    ensures Segments(SegmentsText(segments) + t) == Ok(segments, t)
    decreases |segments|
  {
    hide SegmentText, PathSegment;
    if segments == [] {
      assert "" + t == t;
      assert PathSegment(t).Backtrack? by {
        NoSegment(t);
      }
    } else {
      var more := SegmentsText(segments[1..]) + t;
      SegmentsStart(segments[1..], t);
      ReadsSegment(segments[0], more);
      ReadsSegments(segments[1..], t);
      assert SegmentsText(segments) + t == SegmentText(segments[0]) + more;
      assert [segments[0]] + segments[1..] == segments;
    }
  }

  lemma NoSegment(t: string)
    requires AfterSegments(t)
    ensures PathSegment(t).Backtrack?
  {
  }

  lemma ReadsMeta(meta: Option<MetaKind>, t: string)
    requires EndsPath(t)
    ensures MetaSuffix(MetaText(meta) + t) == if meta.Some? then Ok(meta.value, t) else Backtrack
  {
    hide MetaSuffix, IsIdentifier;
    if meta.Some? {
      MetaNames(meta.value);
      ReadsName(MetaName(meta.value), t);
      assert MetaText(meta) + t == "::" + (MetaName(meta.value) + t);
      MetaBehindColons(meta.value, MetaName(meta.value) + t, t);
    } else {
      assert MetaText(meta) + t == t;
      NoColons(t);
    }
  }

  lemma MetaNames(meta: MetaKind)
    ensures IsIdentifier(MetaName(meta))
  {
  }

  lemma MetaBehindColons(meta: MetaKind, s: string, t: string)
    requires Identifier(s) == Ok(MetaName(meta), t)
    ensures MetaSuffix("::" + s) == Ok(meta, t)
  {
    hide Identifier;
    assert ("::" + s)[..2] == "::" && ("::" + s)[2..] == s;
  }

  lemma NoColons(t: string)
    requires t == "" || t[0] != ':'
    ensures MetaSuffix(t).Backtrack?
  {
    assert |t| >= 2 ==> t[..2][0] == t[0];
  }

  lemma ReadsInstance(instance: Option<nat>, t: string)
    requires instance.Some? ==> instance.value <= U32_MAX
    requires t == "" || (!IsTail(t[0]) && t[0] != '#')
    ensures InstanceSuffix(InstanceText(instance) + t) == if instance.Some? then Ok(instance.value, t) else Backtrack
  {
    hide Decimal, PlainDigits, NumberValue;
    var s := InstanceText(instance) + t;
    if instance.Some? {
      ReadsDigits(instance.value, t);
      DecimalValue(instance.value);
      assert s[1..] == Decimal(instance.value) + t;
    } else {
      assert s == t;
    }
  }

  /** A path is read back in front of anything that cannot belong to it. */
  lemma ReadsPath(path: Path, t: string)
    requires ValidPath(path) && EndsPath(t)
    ensures PathOf(Displayed(path) + t) == Ok(path, t)
  {
    hide Identifier, InstanceSuffix, Segments, MetaSuffix, SegmentsText, IsIdentifier, Decimal, Displayed;
    var m := MetaText(path.meta) + t;
    var u := SegmentsText(path.segments) + m;
    var v := InstanceText(path.instance) + u;
    MetaStart(path.meta, t);
    ReadsMeta(path.meta, t);
    ReadsSegments(path.segments, m);
    SegmentsStart(path.segments, m);
    ReadsInstance(path.instance, u);
    AfterRoot(path.instance, u);
    ReadsName(path.root, v);
    assert path.instance.None? ==> v == u;
    assert Displayed(path) + t == path.root + v by {
      DisplayedThen(path, t);
    }
  }

  lemma DisplayedThen(path: Path, t: string)
    ensures (Displayed(path) + t
             == path.root + (InstanceText(path.instance) + (SegmentsText(path.segments) + (MetaText(path.meta) + t))))
  {
    hide SegmentsText, MetaText, InstanceText;
  }

  lemma MetaStart(meta: Option<MetaKind>, t: string)
    requires EndsPath(t)
    ensures AfterSegments(MetaText(meta) + t)
  {
    if meta.None? {
      assert "" + t == t;
    }
  }

  lemma AfterRoot(instance: Option<nat>, u: string)
    requires u == "" || (!IsTail(u[0]) && u[0] != '#')
    ensures var v := InstanceText(instance) + u; v == "" || !IsTail(v[0])
  {
    hide Decimal;
    if instance.None? {
      assert "" + u == u;
    }
  }

  // ---------------------------------------------------- nothing to trim

  predicate NoWhite(s: string) {
    forall c <- s :: !IsWhite(c)
  }

  lemma {:induction false} SegmentsNoWhite(segments: seq<Segment>)
    requires forall segment <- segments :: ValidSegment(segment)
    ensures NoWhite(SegmentsText(segments))
    decreases |segments|
  {
    hide Decimal;
    if segments != [] {
      SegmentsNoWhite(segments[1..]);
      assert segments[0] in segments;
      if segments[0].Name? {
        NameNoWhite(segments[0].name);
      }
    }
  }

  lemma NameNoWhite(name: string)
    requires IsIdentifier(name)
    ensures NoWhite(name)
  {
    assert name == [name[0]] + name[1..];
  }

  lemma DisplayedNoWhite(path: Path)
    requires ValidPath(path)
    ensures NoWhite(Displayed(path))
  {
    hide Decimal, SegmentsText;
    NameNoWhite(path.root);
    SegmentsNoWhite(path.segments);
    if path.meta.Some? {
      assert NoWhite("offset") && NoWhite("len") && NoWhite("::");
    }
  }

  lemma NothingToTrim(s: string)
    requires NoWhite(s)
    ensures Trim(s) == s
  {
    if s != "" {
      assert s[0] in s && s[|s| - 1] in s;
    }
  }

  /** Parsing undoes display, for every path made of valid identifiers. */
  lemma ParseUndoesDisplay(path: Path)
    requires ValidPath(path)
    ensures Parse(Displayed(path)) == Tree(PathExpr(path))
  {
    hide Additive, PathOf, SegmentsText;
    var s := Displayed(path);
    DisplayedNoWhite(path);
    NothingToTrim(s);
    ReadsPath(path, "");
    assert s + "" == s;
    assert s[0] == path.root[0];
    PathIsPrimary(s);
    OperandAlone(s);
  }
}
