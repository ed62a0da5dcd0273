/**
 * The recursive-descent parser over the tokenizer's event stream. Each `parse_*` routine
 * of the reader is a method on a shared `Reader` cursor; each is proved to compute the
 * specification function of the same name, a function of (events, position) that returns
 * the parsed value and the position after it. Properties are proved about the functions.
 *
 * End of input is sticky: reading at or past the end, or reading an `Eof` event, yields
 * `Eof` and leaves the cursor where it is.
 */
module Parser {
  import opened Base
  import opened Text
  import opened IndexMaps
  import opened Urdf

  datatype ParseError = InvalidStructure(msg: string) | MissingAttribute(attr: string)

  datatype Result<T> = Ok(value: T) | Err(error: ParseError)

  const UnexpectedEof := InvalidStructure("Unexpected end of file")
  const NoRobot := InvalidStructure("No robot element found")

  // ---------------------------------------------------------------- the cursor

  function EventAt(evs: seq<Event>, pos: nat): Event {
    if pos < |evs| then evs[pos] else Eof
  }

  /** The cursor after reading the event at `pos`. */
  function Next(evs: seq<Event>, pos: nat): (p: nat)
    ensures p == if EventAt(evs, pos).Eof? then pos else pos + 1
  {
    if pos < |evs| && !evs[pos].Eof? then pos + 1 else pos
  }

  class Reader {
    const events: seq<Event>
    var pos: nat

    ghost predicate Valid()
      reads this
    {
      pos <= |events|
    }

    constructor (events: seq<Event>)
      ensures this.events == events && pos == 0 && Valid()
    {
      this.events := events;
      pos := 0;
    }

    /** `read_event_into`: the event under the cursor, advancing past it unless it is `Eof`. */
    method ReadEvent() returns (e: Event)
      requires Valid()
      modifies this
      ensures Valid()
      ensures e == EventAt(events, old(pos)) && pos == Next(events, old(pos))
    {
      if pos < |events| && !events[pos].Eof? {
        e := events[pos];
        pos := pos + 1;
      } else {
        e := Eof;
      }
    }
  }

  /** The outcome of a method run against its specification: the value and where the cursor stopped. */
  function Outcome<T>(res: Result<T>, pos: nat): Result<(T, nat)> {
    match res
    case Ok(v) => Ok((v, pos))
    case Err(e) => Err(e)
  }

  // ---------------------------------------------------------------- attributes

  /** The value of the first attribute named `key`. */
  function GetOptionalAttribute(attrs: seq<Attr>, key: string): (r: Option<string>)
    ensures r.None? <==> forall i :: 0 <= i < |attrs| ==> attrs[i].key != key
    ensures r.Some? ==>
      exists i :: 0 <= i < |attrs| && attrs[i] == Attr(key, r.value) && (forall j :: 0 <= j < i ==> attrs[j].key != key)
  {
    if attrs == [] then None
    else if attrs[0].key == key then Some(attrs[0].value)
    else
      var r := GetOptionalAttribute(attrs[1..], key);
      assert r.Some? ==>
        exists i :: 0 <= i < |attrs[1..]| && attrs[1..][i] == Attr(key, r.value) && (forall j :: 0 <= j < i ==> attrs[1..][j].key != key);
      r
  }

  /** The value of the first attribute named `key`, or `MissingAttribute(key)`. */
  function GetRequiredAttribute(attrs: seq<Attr>, key: string): (r: Result<string>)
    ensures r.Err? <==> forall i :: 0 <= i < |attrs| ==> attrs[i].key != key
    ensures r.Err? ==> r.error == MissingAttribute(key)
    ensures r.Ok? ==> GetOptionalAttribute(attrs, key) == Some(r.value)
  {
    match GetOptionalAttribute(attrs, key)
    case Some(v) => Ok(v)
    case None => Err(MissingAttribute(key))
  }

  /** An optional attribute read as a number; a value that is not numeric counts as absent. */
  function OptionalNumber(attrs: seq<Attr>, key: string): (r: Option<Num>)
    ensures r.Some? <==> GetOptionalAttribute(attrs, key).Some? && IsNumeric(GetOptionalAttribute(attrs, key).value)
    ensures r.Some? ==> r.value.text == GetOptionalAttribute(attrs, key).value
  {
    match GetOptionalAttribute(attrs, key)
    case Some(s) => if IsNumeric(s) then Some(Num(s)) else None
    case None => None
  }

  // ---------------------------------------------------------------- numbers

  /** A triple of numbers in attribute form: the three tokens separated by single spaces. */
  function TripleText(t: Triple): string {
    JoinWords([t.x.text, t.y.text, t.z.text])
  }

  /** `parse_three_floats`: exactly three whitespace-separated numeric tokens. */
  function ParseThreeFloats(s: string): (r: Result<Triple>)
    ensures r.Ok? <==> |SplitWhitespace(s)| == 3 && forall k :: 0 <= k < 3 ==> IsNumeric(SplitWhitespace(s)[k])
    ensures r.Ok? ==> [r.value.x.text, r.value.y.text, r.value.z.text] == SplitWhitespace(s)
    ensures (exists k :: 0 <= k < |SplitWhitespace(s)| && !IsNumeric(SplitWhitespace(s)[k]))
      ==> r == Err(InvalidStructure("Invalid float array: " + s))
    ensures (forall k :: 0 <= k < |SplitWhitespace(s)| ==> IsNumeric(SplitWhitespace(s)[k])) && |SplitWhitespace(s)| != 3
      ==> r == Err(InvalidStructure("Expected 3 values, got " + NatToString(|SplitWhitespace(s)|)))
  {
    var parts := SplitWhitespace(s);
    if exists k :: 0 <= k < |parts| && !IsNumeric(parts[k]) then
      Err(InvalidStructure("Invalid float array: " + s))
    else if |parts| != 3 then
      Err(InvalidStructure("Expected 3 values, got " + NatToString(|parts|)))
    else
      Ok(Triple(Num(parts[0]), Num(parts[1]), Num(parts[2])))
  }

  predicate NumericTriple(t: Triple) {
    IsNumeric(t.x.text) && IsNumeric(t.y.text) && IsNumeric(t.z.text)
  }

  /** Reading back the text of a triple of numbers gives the triple. */
  lemma ParseTripleText(t: Triple)
    requires NumericTriple(t)
    ensures ParseThreeFloats(TripleText(t)) == Ok(t)
  {
    NumericHasNoWhitespace(t.x.text);
    NumericHasNoWhitespace(t.y.text);
    NumericHasNoWhitespace(t.z.text);
    var ws := [t.x.text, t.y.text, t.z.text];
    SplitJoinWords(ws);
    assert SplitWhitespace(TripleText(t)) == ws;
    assert forall k :: 0 <= k < |ws| ==> IsNumeric(ws[k]);
  }

  const Zeros := Triple(Num("0"), Num("0"), Num("0"))
  const UnitX := Triple(Num("1"), Num("0"), Num("0"))

  /** An optional attribute's text, or `default` when it is absent. */
  function AttrOr(attrs: seq<Attr>, key: string, default: string): (r: string)
    ensures GetOptionalAttribute(attrs, key).Some? ==> r == GetOptionalAttribute(attrs, key).value
    ensures GetOptionalAttribute(attrs, key).None? ==> r == default
  {
    match GetOptionalAttribute(attrs, key) case Some(s) => s case None => default
  }

  /**
   * `parse_origin_from_attributes`: `xyz` and `rpy`, each `"0 0 0"` when absent on its own.
   * It fails exactly when a text present is not three numbers, with `xyz`'s error first.
   */
  function ParseOrigin(attrs: seq<Attr>): (r: Result<Origin>)
    ensures var xyz, rpy := ParseThreeFloats(AttrOr(attrs, "xyz", "0 0 0")), ParseThreeFloats(AttrOr(attrs, "rpy", "0 0 0"));
      && (r.Ok? <==> xyz.Ok? && rpy.Ok?)
      && (r.Ok? ==> Ok(r.value.xyz) == xyz && Ok(r.value.rpy) == rpy)
      && (xyz.Err? ==> r == Err(xyz.error))
      && (xyz.Ok? && rpy.Err? ==> r == Err(rpy.error))
    ensures r.Ok? && GetOptionalAttribute(attrs, "xyz").None? ==> r.value.xyz == Zeros
    ensures r.Ok? && GetOptionalAttribute(attrs, "rpy").None? ==> r.value.rpy == Zeros
    ensures GetOptionalAttribute(attrs, "xyz").None? && GetOptionalAttribute(attrs, "rpy").None?
      ==> r == Ok(Origin(Zeros, Zeros))
  {
    var xyzText := AttrOr(attrs, "xyz", "0 0 0");
    var rpyText := AttrOr(attrs, "rpy", "0 0 0");
    assert ParseThreeFloats("0 0 0") == Ok(Zeros) by {
      assert NumericTriple(Zeros) && TripleText(Zeros) == "0 0 0";
      ParseTripleText(Zeros);
    }
    match ParseThreeFloats(xyzText)
    case Err(e) => Err(e)
    case Ok(xyz) =>
      match ParseThreeFloats(rpyText)
      case Err(e) => Err(e)
      case Ok(rpy) => Ok(Origin(xyz, rpy))
  }

  /** `parse_axis_from_attributes`: `xyz`, `"1 0 0"` when absent. */
  function ParseAxis(attrs: seq<Attr>): (r: Result<Axis>)
    ensures GetOptionalAttribute(attrs, "xyz").None? ==> r == Ok(Axis(UnitX))
    ensures r.Ok? <==> ParseThreeFloats(match GetOptionalAttribute(attrs, "xyz") case Some(s) => s case None => "1 0 0").Ok?
    ensures var t := ParseThreeFloats(match GetOptionalAttribute(attrs, "xyz") case Some(s) => s case None => "1 0 0");
      && (r.Ok? ==> Ok(r.value.xyz) == t)
      && (r.Err? ==> t == Err(r.error))
  {
    var xyzText := match GetOptionalAttribute(attrs, "xyz") case Some(s) => s case None => "1 0 0";
    assert ParseThreeFloats("1 0 0") == Ok(UnitX) by {
      assert NumericTriple(UnitX) && TripleText(UnitX) == "1 0 0";
      ParseTripleText(UnitX);
    }
    match ParseThreeFloats(xyzText)
    case Err(e) => Err(e)
    case Ok(xyz) => Ok(Axis(xyz))
  }

  /** `o` is what the attribute `key` reads as: a number when present and numeric, nothing otherwise. */
  predicate ReadsNumber(o: Option<Num>, attrs: seq<Attr>, key: string) {
    && (o.Some? <==> GetOptionalAttribute(attrs, key).Some? && IsNumeric(GetOptionalAttribute(attrs, key).value))
    && (o.Some? ==> o.value.text == GetOptionalAttribute(attrs, key).value)
  }

  /** `parse_limit_from_attributes`: four optional numbers, a value that does not parse counting as absent. */
  function ParseLimit(attrs: seq<Attr>): (r: Limit)
    ensures ReadsNumber(r.lower, attrs, "lower") && ReadsNumber(r.upper, attrs, "upper")
    ensures ReadsNumber(r.effort, attrs, "effort") && ReadsNumber(r.velocity, attrs, "velocity")
  {
    Limit(OptionalNumber(attrs, "lower"), OptionalNumber(attrs, "upper"),
          OptionalNumber(attrs, "effort"), OptionalNumber(attrs, "velocity"))
  }

  /** `parse_dynamics_from_attributes`: two optional numbers, read the same way. */
  function ParseDynamics(attrs: seq<Attr>): (r: Dynamics)
    ensures ReadsNumber(r.damping, attrs, "damping") && ReadsNumber(r.friction, attrs, "friction")
  {
    Dynamics(OptionalNumber(attrs, "damping"), OptionalNumber(attrs, "friction"))
  }

  /** `parse_mimic_from_attributes`: `joint` is required. */
  function ParseMimic(attrs: seq<Attr>): (r: Result<Mimic>)
    ensures r.Err? <==> GetOptionalAttribute(attrs, "joint").None?
    ensures r.Ok? ==> r.value.joint == GetOptionalAttribute(attrs, "joint").value
  {
    match GetRequiredAttribute(attrs, "joint")
    case Err(e) => Err(e)
    case Ok(j) => Ok(Mimic(j, OptionalNumber(attrs, "multiplier"), OptionalNumber(attrs, "offset")))
  }

  // ---------------------------------------------------------------- skipping

  /** Change of nesting depth an event causes. */
  function Delta(e: Event): int {
    match e
    case Start(_, _) => 1
    case End(_) => -1
    case _ => 0
  }

  /** `skip_element`'s loop from depth `depth`: the position after the event that brings the depth to 0, or the end of input. */
  function SkipLoop(evs: seq<Event>, pos: nat, depth: nat): (p: nat)
    requires pos <= |evs|
    ensures pos <= p <= |evs|
    ensures depth > 0 && p > pos ==> EventAt(evs, p - 1).End? || EventAt(evs, p).Eof?
    decreases |evs| - pos
  {
    if depth == 0 then pos
    else
      match EventAt(evs, pos)
      case Start(_, _) => SkipLoop(evs, pos + 1, depth + 1)
      case End(_) => if depth == 1 then pos + 1 else SkipLoop(evs, pos + 1, depth - 1)
      case Eof => pos
      case _ => SkipLoop(evs, pos + 1, depth)
  }

  /** Net depth change over the events in `[from, to)`. */
  function NetRange(evs: seq<Event>, from: nat, to: nat): int
    requires from <= to <= |evs|
    decreases (to as int) - (from as int)
  {
    if from == to then 0 else Delta(evs[from]) + NetRange(evs, from + 1, to)
  }

  /**
   * The events in `[from, to)` form a run in which every opened element is closed again
   * and nothing closes an element opened before the run.
   */
  predicate Balanced(evs: seq<Event>, from: nat, to: nat)
    requires from <= to <= |evs|
  {
    && NetRange(evs, from, to) == 0
    && (forall k :: from <= k <= to ==> NetRange(evs, from, k) >= 0)
    && (forall i :: from <= i < to ==> !evs[i].Eof?)
  }

  /** Skipping from depth `depth` over events whose running depth stays at or above 1 reaches their end at that depth plus their net change. */
  lemma {:induction false} SkipOver(evs: seq<Event>, pos: nat, end: nat, depth: nat)
    requires pos <= end <= |evs|
    requires forall i :: pos <= i < end ==> !evs[i].Eof?
    requires forall k :: pos <= k <= end ==> depth + NetRange(evs, pos, k) >= 1
    ensures depth + NetRange(evs, pos, end) >= 1
    ensures SkipLoop(evs, pos, depth) == SkipLoop(evs, end, depth + NetRange(evs, pos, end))
    decreases end - pos
  {
    assert depth + NetRange(evs, pos, pos) >= 1;
    if pos < end {
      var d' := depth + Delta(evs[pos]);
      assert d' == depth + NetRange(evs, pos, pos + 1);
      assert SkipLoop(evs, pos, depth) == SkipLoop(evs, pos + 1, d');
      var next := pos + 1;
      forall k | next <= k <= end ensures d' + NetRange(evs, next, k) >= 1 {
        assert NetRange(evs, pos, k) == Delta(evs[pos]) + NetRange(evs, next, k);
      }
      SkipOver(evs, next, end, d');
    }
  }

  /** `skip_element` over a balanced run followed by a closing tag stops right after that tag. */
  lemma SkipBalanced(evs: seq<Event>, pos: nat, end: nat)
    requires pos <= end < |evs| && Balanced(evs, pos, end) && evs[end].End?
    ensures SkipLoop(evs, pos, 1) == end + 1
  {
    SkipOver(evs, pos, end, 1);
  }

  /** `skip_element` on an element that is never closed runs to the end of input and raises nothing. */
  lemma SkipUnclosed(evs: seq<Event>, pos: nat, depth: nat)
    requires pos <= |evs| && depth >= 1
    requires forall i :: pos <= i < |evs| ==> evs[i].Start? || !(evs[i].End? || evs[i].Eof?)
    ensures SkipLoop(evs, pos, depth) == |evs|
    decreases |evs| - pos
  {
    if pos < |evs| {
      SkipUnclosed(evs, pos + 1, depth + Delta(evs[pos]));
    }
  }

  method SkipElement(r: Reader)
    requires r.Valid()
    modifies r
    ensures r.Valid() && r.pos == SkipLoop(r.events, old(r.pos), 1)
  {
    var depth: nat := 1;
    while depth > 0
      invariant r.Valid() && old(r.pos) <= r.pos
      invariant SkipLoop(r.events, r.pos, depth) == SkipLoop(r.events, old(r.pos), 1)
      decreases |r.events| - r.pos, depth
    {
      var e := r.ReadEvent();
      match e {
        case Start(_, _) => depth := depth + 1;
        case End(_) => depth := depth - 1;
        case Eof => return;
        case _ =>
      }
    }
  }

  // ---------------------------------------------------------------- leaf elements

  const DefaultMass := Num("1.0")

  /** `parse_inertial`: the body is skipped; mass 1.0, no origin, no inertia. */
  function ParseInertial(evs: seq<Event>, pos: nat): (r: (Inertial, nat))
    requires pos <= |evs|
    ensures r.0 == Inertial(DefaultMass, None, None) && pos <= r.1 <= |evs|
  {
    (Inertial(DefaultMass, None, None), SkipLoop(evs, pos, 1))
  }

  /** `parse_visual`: the body is skipped; only the optional `name` is kept, and no material reference. */
  function ParseVisual(evs: seq<Event>, pos: nat, attrs: seq<Attr>): (r: (Visual, nat))
    requires pos <= |evs|
    ensures r.0 == Visual(GetOptionalAttribute(attrs, "name"), None, None, None) && pos <= r.1 <= |evs|
  {
    (Visual(GetOptionalAttribute(attrs, "name"), None, None, None), SkipLoop(evs, pos, 1))
  }

  function ParseCollision(evs: seq<Event>, pos: nat, attrs: seq<Attr>): (r: (Collision, nat))
    requires pos <= |evs|
    ensures r.0 == Collision(GetOptionalAttribute(attrs, "name"), None, None) && pos <= r.1 <= |evs|
  {
    (Collision(GetOptionalAttribute(attrs, "name"), None, None), SkipLoop(evs, pos, 1))
  }

  /** `parse_material`: `name` is required and checked before the body is skipped. */
  function ParseMaterial(evs: seq<Event>, pos: nat, attrs: seq<Attr>): (r: Result<(Material, nat)>)
    requires pos <= |evs|
    ensures r.Err? <==> GetOptionalAttribute(attrs, "name").None?
    ensures r.Ok? ==> r.value.0 == Material(GetOptionalAttribute(attrs, "name").value, None, None)
    ensures r.Ok? ==> pos <= r.value.1 <= |evs|
  {
    match GetRequiredAttribute(attrs, "name")
    case Err(e) => Err(e)
    case Ok(name) => Ok((Material(name, None, None), SkipLoop(evs, pos, 1)))
  }

  function ParseGazebo(evs: seq<Event>, pos: nat, attrs: seq<Attr>): (r: (GazeboElement, nat))
    requires pos <= |evs|
    ensures r.0 == GazeboElement(GetOptionalAttribute(attrs, "reference"), "") && pos <= r.1 <= |evs|
  {
    (GazeboElement(GetOptionalAttribute(attrs, "reference"), ""), SkipLoop(evs, pos, 1))
  }

  function ParseTransmission(evs: seq<Event>, pos: nat, attrs: seq<Attr>): (r: Result<(TransmissionElement, nat)>)
    requires pos <= |evs|
    ensures r.Err? <==> GetOptionalAttribute(attrs, "name").None?
    ensures r.Ok? ==> r.value.0 == TransmissionElement(GetOptionalAttribute(attrs, "name").value, "")
    ensures r.Ok? ==> pos <= r.value.1 <= |evs|
  {
    match GetRequiredAttribute(attrs, "name")
    case Err(e) => Err(e)
    case Ok(name) => Ok((TransmissionElement(name, ""), SkipLoop(evs, pos, 1)))
  }

  // ---------------------------------------------------------------- links

  /** One child element of a link, opened by `Start(name, attrs)` just before `pos`. */
  function LinkChild(evs: seq<Event>, pos: nat, link: Link, name: string, attrs: seq<Attr>): (r: (Link, nat))
    requires pos <= |evs|
    ensures pos <= r.1 <= |evs|
    ensures r.0.name == link.name
  {
    if name == "inertial" then
      var (i, p) := ParseInertial(evs, pos); (link.(inertial := Some(i)), p)
    else if name == "visual" then
      var (v, p) := ParseVisual(evs, pos, attrs); (link.(visual := link.visual + [v]), p)
    else if name == "collision" then
      var (c, p) := ParseCollision(evs, pos, attrs); (link.(collision := link.collision + [c]), p)
    else
      (link, SkipLoop(evs, pos, 1))
  }

  /** `parse_link`'s loop: children until `End(link)`; only opening tags are dispatched. */
  function LinkLoop(evs: seq<Event>, pos: nat, link: Link): (r: Result<(Link, nat)>)
    requires pos <= |evs|
    ensures r.Ok? ==> pos < r.value.1 <= |evs| && evs[r.value.1 - 1] == End("link")
    ensures r.Ok? ==> r.value.0.name == link.name
    ensures r.Err? ==> r.error == UnexpectedEof
    decreases |evs| - pos
  {
    match EventAt(evs, pos)
    case Start(n, a) =>
      var (l, p) := LinkChild(evs, pos + 1, link, n, a);
      LinkLoop(evs, p, l)
    case End(n) => if n == "link" then Ok((link, pos + 1)) else LinkLoop(evs, pos + 1, link)
    case Eof => Err(UnexpectedEof)
    case _ => LinkLoop(evs, pos + 1, link)
  }

  /** `parse_link`, after its `Start` tag. */
  function ParseLink(evs: seq<Event>, pos: nat, attrs: seq<Attr>): (r: Result<(Link, nat)>)
    requires pos <= |evs|
    ensures r.Ok? ==> pos < r.value.1 <= |evs|
    ensures GetOptionalAttribute(attrs, "name").None? ==> r == Err(MissingAttribute("name"))
    ensures r.Ok? ==> Some(r.value.0.name) == GetOptionalAttribute(attrs, "name")
  {
    match GetRequiredAttribute(attrs, "name")
    case Err(e) => Err(e)
    case Ok(name) => LinkLoop(evs, pos, Link(name, None, [], []))
  }

  method ParseLinkMethod(r: Reader, attrs: seq<Attr>) returns (res: Result<Link>)
    requires r.Valid()
    modifies r
    ensures r.Valid() && Outcome(res, r.pos) == ParseLink(r.events, old(r.pos), attrs)
  {
    var nameRes := GetRequiredAttribute(attrs, "name");
    if nameRes.Err? {
      return Err(nameRes.error);
    }
    var link := Link(nameRes.value, None, [], []);
    while true
      invariant r.Valid() && old(r.pos) <= r.pos
      invariant LinkLoop(r.events, r.pos, link) == ParseLink(r.events, old(r.pos), attrs)
      decreases |r.events| - r.pos
    {
      var start, before := r.pos, link;
      var e := r.ReadEvent();
      match e {
        case Start(n, a) =>
          if n == "inertial" {
            SkipElement(r);
            link := link.(inertial := Some(Inertial(DefaultMass, None, None)));
          } else if n == "visual" {
            SkipElement(r);
            link := link.(visual := link.visual + [Visual(GetOptionalAttribute(a, "name"), None, None, None)]);
          } else if n == "collision" {
            SkipElement(r);
            link := link.(collision := link.collision + [Collision(GetOptionalAttribute(a, "name"), None, None)]);
          } else {
            SkipElement(r);
          }
          assert (link, r.pos) == LinkChild(r.events, start + 1, before, n, a);
        case End(n) =>
          if n == "link" {
            return Ok(link);
          }
        case Eof =>
          return Err(UnexpectedEof);
        case _ =>
      }
    }
  }

  // ---------------------------------------------------------------- joints

  predicate IsJointTag(name: string) {
    name in {"parent", "child", "origin", "axis", "limit", "dynamics", "mimic"}
  }

  /** What a recognised joint sub-tag sets; `None` for a tag the joint parser does not know. */
  function JointField(joint: Joint, name: string, attrs: seq<Attr>): (r: Option<Result<Joint>>)
    ensures r.Some? <==> IsJointTag(name)
    ensures r.Some? && r.value.Ok? ==> r.value.value.name == joint.name && r.value.value.jointType == joint.jointType
    ensures r.Some? && r.value.Ok? && name != "parent" ==> r.value.value.parent == joint.parent
    ensures r.Some? && r.value.Ok? && name != "child" ==> r.value.value.child == joint.child
    ensures name in {"parent", "child"} && GetOptionalAttribute(attrs, "link").None? ==> r == Some(Err(MissingAttribute("link")))
  {
    if name == "parent" then
      Some(match GetRequiredAttribute(attrs, "link") case Ok(l) => Ok(joint.(parent := l)) case Err(e) => Err(e))
    else if name == "child" then
      Some(match GetRequiredAttribute(attrs, "link") case Ok(l) => Ok(joint.(child := l)) case Err(e) => Err(e))
    else if name == "origin" then
      Some(match ParseOrigin(attrs) case Ok(o) => Ok(joint.(origin := Some(o))) case Err(e) => Err(e))
    else if name == "axis" then
      Some(match ParseAxis(attrs) case Ok(a) => Ok(joint.(axis := Some(a))) case Err(e) => Err(e))
    else if name == "limit" then
      Some(Ok(joint.(limit := Some(ParseLimit(attrs)))))
    else if name == "dynamics" then
      Some(Ok(joint.(dynamics := Some(ParseDynamics(attrs)))))
    else if name == "mimic" then
      Some(match ParseMimic(attrs) case Ok(m) => Ok(joint.(mimic := Some(m))) case Err(e) => Err(e))
    else
      None
  }

  /**
   * One `Start` or `Empty` tag inside a joint, read at `pos`. An unknown tag makes the
   * parser read one more event, whatever it is, and skip an element only when that
   * event opens one.
   */
  function JointTag(evs: seq<Event>, pos: nat, joint: Joint, name: string, attrs: seq<Attr>): (r: Result<(Joint, nat)>)
    requires pos < |evs|
    ensures r.Ok? ==> pos < r.value.1 <= |evs|
    ensures r.Ok? ==> r.value.0.name == joint.name && r.value.0.jointType == joint.jointType
  {
    match JointField(joint, name, attrs)
    case Some(Err(e)) => Err(e)
    case Some(Ok(j)) => Ok((j, pos + 1))
    case None =>
      var after := Next(evs, pos + 1);
      if EventAt(evs, pos + 1).Start? then Ok((joint, SkipLoop(evs, after, 1))) else Ok((joint, after))
  }

  /** `parse_joint`'s loop: sub-tags until `End(joint)`; both opening and self-closing tags are dispatched. */
  function JointLoop(evs: seq<Event>, pos: nat, joint: Joint): (r: Result<(Joint, nat)>)
    requires pos <= |evs|
    ensures r.Ok? ==> pos < r.value.1 <= |evs|
    ensures r.Ok? ==> r.value.0.name == joint.name && r.value.0.jointType == joint.jointType
    decreases |evs| - pos
  {
    var e := EventAt(evs, pos);
    if e.End? && e.name == "joint" then Ok((joint, pos + 1))
    else if e.Eof? then Err(UnexpectedEof)
    else if e.Start? || e.Empty? then
      var t := JointTag(evs, pos, joint, e.name, e.attrs);
      if t.Err? then Err(t.error) else JointLoop(evs, t.value.1, t.value.0)
    else JointLoop(evs, pos + 1, joint)
  }

  /** `parse_joint`, after its `Start` tag: `name`, then `type`, are required; parent and child start empty. */
  function ParseJoint(evs: seq<Event>, pos: nat, attrs: seq<Attr>): (r: Result<(Joint, nat)>)
    requires pos <= |evs|
    ensures r.Ok? ==> pos < r.value.1 <= |evs|
    ensures GetOptionalAttribute(attrs, "name").None? ==> r == Err(MissingAttribute("name"))
    ensures GetOptionalAttribute(attrs, "name").Some? && GetOptionalAttribute(attrs, "type").None?
      ==> r == Err(MissingAttribute("type"))
    ensures r.Ok? ==> (Some(r.value.0.name) == GetOptionalAttribute(attrs, "name")
                       && Some(r.value.0.jointType) == GetOptionalAttribute(attrs, "type"))
  {
    match GetRequiredAttribute(attrs, "name")
    case Err(e) => Err(e)
    case Ok(name) =>
      match GetRequiredAttribute(attrs, "type")
      case Err(e) => Err(e)
      case Ok(jointType) => JointLoop(evs, pos, Joint(name, jointType, "", "", None, None, None, None, None))
  }

  /** A joint is read up to and including its closing tag. */
  lemma {:induction false} JointLoopEnds(evs: seq<Event>, pos: nat, joint: Joint, end: nat)
    requires pos <= |evs|
    requires JointLoop(evs, pos, joint).Ok? && JointLoop(evs, pos, joint).value.1 == end
    ensures 0 < end <= |evs| && evs[end - 1] == End("joint")
    decreases |evs| - pos
  {
    var e := EventAt(evs, pos);
    if e.End? && e.name == "joint" {
      assert evs[pos] == e;
    } else if e.Start? || e.Empty? {
      var t := JointTag(evs, pos, joint, e.name, e.attrs);
      JointLoopEnds(evs, t.value.1, t.value.0, end);
    } else {
      JointLoopEnds(evs, pos + 1, joint, end);
    }
  }

  /** An opening or self-closing tag called `name`. */
  predicate OpensTag(e: Event, name: string) {
    (e.Start? || e.Empty?) && e.name == name
  }

  /**
   * A joint whose own events, up to its closing tag, hold no `parent` tag keeps the parent
   * it started with (the empty string, for `ParseJoint`); the same for `child`.
   */
  lemma {:induction false} JointWithoutParentOrChild(evs: seq<Event>, pos: nat, joint: Joint)
    requires pos <= |evs| && JointLoop(evs, pos, joint).Ok?
    ensures var (j, end) := JointLoop(evs, pos, joint).value;
      && ((forall i :: pos <= i < end ==> !OpensTag(evs[i], "parent")) ==> j.parent == joint.parent)
      && ((forall i :: pos <= i < end ==> !OpensTag(evs[i], "child")) ==> j.child == joint.child)
    decreases |evs| - pos
  {
    var e := EventAt(evs, pos);
    if e.Start? || e.Empty? {
      var t := JointTag(evs, pos, joint, e.name, e.attrs);
      assert e == evs[pos];
      assert t.Ok? && JointLoop(evs, pos, joint) == JointLoop(evs, t.value.1, t.value.0);
      assert e.name != "parent" ==> t.value.0.parent == joint.parent;
      assert e.name != "child" ==> t.value.0.child == joint.child;
      JointWithoutParentOrChild(evs, t.value.1, t.value.0);
    } else if !(e.End? && e.name == "joint") && !e.Eof? {
      JointWithoutParentOrChild(evs, pos + 1, joint);
    }
  }

  /** The unknown-tag branch swallows the next event: a self-closing unknown tag hides the `parent` tag after it. */
  lemma UnknownTagHidesNext()
    ensures var evs := [Empty("calibration", []), Empty("parent", [Attr("link", "base")]), End("joint")];
      var j := Joint("j", "fixed", "", "", None, None, None, None, None);
      JointLoop(evs, 0, j) == Ok((j, 3))
  {
    var evs := [Empty("calibration", []), Empty("parent", [Attr("link", "base")]), End("joint")];
    var j := Joint("j", "fixed", "", "", None, None, None, None, None);
    assert JointTag(evs, 0, j, "calibration", []) == Ok((j, 2));
    assert JointLoop(evs, 2, j) == Ok((j, 3));
  }

  method ParseJointMethod(r: Reader, attrs: seq<Attr>) returns (res: Result<Joint>)
    requires r.Valid()
    modifies r
    ensures r.Valid() && Outcome(res, r.pos) == ParseJoint(r.events, old(r.pos), attrs)
  {
    var nameRes := GetRequiredAttribute(attrs, "name");
    if nameRes.Err? {
      return Err(nameRes.error);
    }
    var typeRes := GetRequiredAttribute(attrs, "type");
    if typeRes.Err? {
      return Err(typeRes.error);
    }
    var joint := Joint(nameRes.value, typeRes.value, "", "", None, None, None, None, None);
    while true
      invariant r.Valid() && old(r.pos) <= r.pos
      invariant JointLoop(r.events, r.pos, joint) == ParseJoint(r.events, old(r.pos), attrs)
      decreases |r.events| - r.pos
    {
      var start := r.pos;
      var e := r.ReadEvent();
      if e.Start? || e.Empty? {
        var field := JointField(joint, e.name, e.attrs);
        match field {
          case Some(Err(err)) =>
            return Err(err);
          case Some(Ok(j)) =>
            joint := j;
          case None =>
            var next := r.ReadEvent();
            if next.Start? {
              SkipElement(r);
            }
        }
      } else if e.End? && e.name == "joint" {
        return Ok(joint);
      } else if e.Eof? {
        return Err(UnexpectedEof);
      }
    }
  }

  // ---------------------------------------------------------------- the robot

  /** One child element of the robot, opened by `Start(name, attrs)` just before `pos`. */
  function RobotChild(evs: seq<Event>, pos: nat, robot: Robot, name: string, attrs: seq<Attr>): (r: Result<(Robot, nat)>)
    requires pos <= |evs|
    ensures r.Ok? ==> pos <= r.value.1 <= |evs| && r.value.0.name == robot.name
  {
    if name == "link" then
      match ParseLink(evs, pos, attrs)
      case Err(e) => Err(e)
      case Ok((l, p)) => Ok((robot.(links := Insert(robot.links, l.name, l)), p))
    else if name == "joint" then
      match ParseJoint(evs, pos, attrs)
      case Err(e) => Err(e)
      case Ok((j, p)) => Ok((robot.(joints := Insert(robot.joints, j.name, j)), p))
    else if name == "material" then
      match ParseMaterial(evs, pos, attrs)
      case Err(e) => Err(e)
      case Ok((m, p)) => Ok((robot.(materials := Insert(robot.materials, m.name, m)), p))
    else if name == "gazebo" then
      var (g, p) := ParseGazebo(evs, pos, attrs);
      Ok((robot.(gazebo := robot.gazebo + [g]), p))
    else if name == "transmission" then
      match ParseTransmission(evs, pos, attrs)
      case Err(e) => Err(e)
      case Ok((t, p)) => Ok((robot.(transmissions := robot.transmissions + [t]), p))
    else
      Ok((robot, SkipLoop(evs, pos, 1)))
  }

  /**
   * What a child element does to the robot: a link, joint or material is inserted under its
   * name (replacing an entry of that name in its slot), a `gazebo` or `transmission` element
   * is appended, any other element is skipped; an error of the element's parser is the
   * robot's error.
   */
  lemma RobotChildAdds(evs: seq<Event>, pos: nat, robot: Robot, name: string, attrs: seq<Attr>)
    requires pos <= |evs|
    ensures name == "link" ==> var c := ParseLink(evs, pos, attrs);
      RobotChild(evs, pos, robot, name, attrs) == if c.Err? then Err(c.error) else Ok((robot.(links := Insert(robot.links, c.value.0.name, c.value.0)), c.value.1))
    ensures name == "joint" ==> var c := ParseJoint(evs, pos, attrs);
      RobotChild(evs, pos, robot, name, attrs) == if c.Err? then Err(c.error) else Ok((robot.(joints := Insert(robot.joints, c.value.0.name, c.value.0)), c.value.1))
    ensures name == "material" ==> var c := ParseMaterial(evs, pos, attrs);
      RobotChild(evs, pos, robot, name, attrs) == if c.Err? then Err(c.error) else Ok((robot.(materials := Insert(robot.materials, c.value.0.name, c.value.0)), c.value.1))
    ensures name == "gazebo" ==>
      RobotChild(evs, pos, robot, name, attrs) == Ok((robot.(gazebo := robot.gazebo + [ParseGazebo(evs, pos, attrs).0]), ParseGazebo(evs, pos, attrs).1))
    ensures name == "transmission" ==> var c := ParseTransmission(evs, pos, attrs);
      RobotChild(evs, pos, robot, name, attrs) == if c.Err? then Err(c.error) else Ok((robot.(transmissions := robot.transmissions + [c.value.0]), c.value.1))
    ensures name !in {"link", "joint", "material", "gazebo", "transmission"} ==> RobotChild(evs, pos, robot, name, attrs) == Ok((robot, SkipLoop(evs, pos, 1)))
  {
  }

  /** `parse_robot`'s loop: children until `End(robot)`; only opening tags are dispatched. */
  function RobotLoop(evs: seq<Event>, pos: nat, robot: Robot): (r: Result<(Robot, nat)>)
    requires pos <= |evs|
    ensures r.Ok? ==> pos < r.value.1 <= |evs|
    ensures r.Ok? ==> r.value.0.name == robot.name
    decreases |evs| - pos
  {
    match EventAt(evs, pos)
    case Start(n, a) =>
      var child := RobotChild(evs, pos + 1, robot, n, a);
      if child.Err? then Err(child.error) else RobotLoop(evs, child.value.1, child.value.0)
    case End(n) => if n == "robot" then Ok((robot, pos + 1)) else RobotLoop(evs, pos + 1, robot)
    case Eof => Err(UnexpectedEof)
    case _ => RobotLoop(evs, pos + 1, robot)
  }

  /** The robot is read up to and including its closing tag. */
  lemma {:induction false} RobotLoopEnds(evs: seq<Event>, pos: nat, robot: Robot, end: nat)
    requires pos <= |evs|
    requires RobotLoop(evs, pos, robot).Ok? && RobotLoop(evs, pos, robot).value.1 == end
    ensures 0 < end <= |evs| && evs[end - 1] == End("robot")
    decreases |evs| - pos
  {
    var e := EventAt(evs, pos);
    if e.Start? {
      var child := RobotChild(evs, pos + 1, robot, e.name, e.attrs);
      RobotLoopEnds(evs, child.value.1, child.value.0, end);
    } else if e.End? && e.name == "robot" {
      assert evs[pos] == e;
    } else {
      RobotLoopEnds(evs, pos + 1, robot, end);
    }
  }

  function EmptyRobot(name: string): Robot {
    Robot(name, [], [], [], [], [])
  }

  /** `parse_robot`, after its `Start` tag: `name` is required. */
  function ParseRobot(evs: seq<Event>, pos: nat, attrs: seq<Attr>): (r: Result<(Robot, nat)>)
    requires pos <= |evs|
    ensures r.Ok? ==> pos < r.value.1 <= |evs|
    ensures GetOptionalAttribute(attrs, "name").None? ==> r == Err(MissingAttribute("name"))
    ensures r.Ok? ==> Some(r.value.0.name) == GetOptionalAttribute(attrs, "name")
  {
    match GetRequiredAttribute(attrs, "name")
    case Err(e) => Err(e)
    case Ok(name) => RobotLoop(evs, pos, EmptyRobot(name))
  }

  /** `parse_string`'s loop: every `Start(robot)` is parsed, and the robot kept at the end is the last one parsed. */
  function DocumentLoop(evs: seq<Event>, pos: nat, found: Option<Robot>): (r: Result<Robot>)
    requires pos <= |evs|
    ensures (forall i :: pos <= i < |evs| ==> !OpensRobot(evs[i]))
      ==> r == if found.Some? then Ok(found.value) else Err(NoRobot)
    decreases |evs| - pos
  {
    match EventAt(evs, pos)
    case Start(n, a) =>
      if n == "robot" then
        match ParseRobot(evs, pos + 1, a)
        case Err(e) => Err(e)
        case Ok((rb, p)) => DocumentLoop(evs, p, Some(rb))
      else DocumentLoop(evs, pos + 1, found)
    case Eof => if found.None? then Err(NoRobot) else Ok(found.value)
    case _ => DocumentLoop(evs, pos + 1, found)
  }

  /**
   * `parse_string`: the last robot element of the document, or the first error in parsing
   * one, or `No robot element found`; a robot it returns stores every link, joint and
   * material under its own name.
   */
  function ParseString(evs: seq<Event>): (r: Result<Robot>)
    ensures r == match LastRobot(evs, 0)
                 case Err(e) => Err(e)
                 case Ok(Some(rb)) => Ok(rb)
                 case Ok(None) => Err(NoRobot)
    ensures r.Ok? ==> WellKeyed(r.value)
  {
    LastRobotWins(evs, 0, None);
    DocumentLoopKeyed(evs, 0, None);
    DocumentLoop(evs, 0, None)
  }

  predicate OpensRobot(e: Event) { e.Start? && e.name == "robot" }

  /**
   * The robot elements from `pos` on, read independently of the loop's state: `None` when
   * there is none, otherwise the last one, unless parsing one of them fails first.
   */
  function LastRobot(evs: seq<Event>, pos: nat): (r: Result<Option<Robot>>)
    requires pos <= |evs|
    ensures (forall i :: pos <= i < |evs| ==> !OpensRobot(evs[i])) ==> r == Ok(None)
    decreases |evs| - pos
  {
    match EventAt(evs, pos)
    case Start(n, a) =>
      if n == "robot" then
        match ParseRobot(evs, pos + 1, a)
        case Err(e) => Err(e)
        case Ok((rb, p)) =>
          match LastRobot(evs, p)
          case Ok(None) => Ok(Some(rb))
          case later => later
      else LastRobot(evs, pos + 1)
    case Eof => Ok(None)
    case _ => LastRobot(evs, pos + 1)
  }

  /** The document loop returns the last robot parsed, the one it already held when there is none, or the first error. */
  lemma {:induction false} LastRobotWins(evs: seq<Event>, pos: nat, found: Option<Robot>)
    requires pos <= |evs|
    ensures DocumentLoop(evs, pos, found) ==
      match LastRobot(evs, pos)
      case Err(e) => Err(e)
      case Ok(Some(rb)) => Ok(rb)
      case Ok(None) => if found.Some? then Ok(found.value) else Err(NoRobot)
    decreases |evs| - pos
  {
    match EventAt(evs, pos)
    case Start(n, a) =>
      if n != "robot" {
        LastRobotWins(evs, pos + 1, found);
      } else {
        match ParseRobot(evs, pos + 1, a) {
          case Err(e) =>
          case Ok((rb, p)) => LastRobotWins(evs, p, Some(rb));
        }
      }
    case Eof =>
    case _ => LastRobotWins(evs, pos + 1, found);
  }

  /** A child element adds each link, joint and material under its own name. */
  lemma RobotChildKeyed(evs: seq<Event>, pos: nat, robot: Robot, name: string, attrs: seq<Attr>)
    requires pos <= |evs| && WellKeyed(robot)
    ensures RobotChild(evs, pos, robot, name, attrs).Ok? ==> WellKeyed(RobotChild(evs, pos, robot, name, attrs).value.0)
  {
    if name == "link" {
      var res := ParseLink(evs, pos, attrs);
      if res.Ok? { InsertKeyed(robot.links, res.value.0.name, res.value.0, (l: Link) => l.name); }
    } else if name == "joint" {
      var res := ParseJoint(evs, pos, attrs);
      if res.Ok? { InsertKeyed(robot.joints, res.value.0.name, res.value.0, (j: Joint) => j.name); }
    } else if name == "material" {
      var res := ParseMaterial(evs, pos, attrs);
      if res.Ok? { InsertKeyed(robot.materials, res.value.0.name, res.value.0, (m: Material) => m.name); }
    }
  }

  /** Inserting a value under its own name keeps every entry under its own name. */
  lemma InsertKeyed<V>(m: IndexMap<V>, k: string, v: V, nameOf: V -> string)
    requires k == nameOf(v)
    requires forall i :: 0 <= i < |m| ==> m[i].0 == nameOf(m[i].1)
    ensures var r := Insert(m, k, v); forall i :: 0 <= i < |r| ==> r[i].0 == nameOf(r[i].1)
  {
  }

  /** Every parsed robot stores each link, joint and material under its own name. */
  lemma {:induction false} RobotLoopKeyed(evs: seq<Event>, pos: nat, robot: Robot)
    requires pos <= |evs| && WellKeyed(robot)
    ensures RobotLoop(evs, pos, robot).Ok? ==> WellKeyed(RobotLoop(evs, pos, robot).value.0)
    decreases |evs| - pos
  {
    match EventAt(evs, pos)
    case Start(n, a) =>
      var child := RobotChild(evs, pos + 1, robot, n, a);
      if child.Ok? {
        RobotChildKeyed(evs, pos + 1, robot, n, a);
        assert RobotLoop(evs, pos, robot) == RobotLoop(evs, child.value.1, child.value.0);
        RobotLoopKeyed(evs, child.value.1, child.value.0);
      }
    case End(n) =>
      if n != "robot" {
        assert RobotLoop(evs, pos, robot) == RobotLoop(evs, pos + 1, robot);
        RobotLoopKeyed(evs, pos + 1, robot);
      }
    case Eof =>
    case _ =>
      assert RobotLoop(evs, pos, robot) == RobotLoop(evs, pos + 1, robot);
      RobotLoopKeyed(evs, pos + 1, robot);
  }

  lemma {:induction false} DocumentLoopKeyed(evs: seq<Event>, pos: nat, found: Option<Robot>)
    requires pos <= |evs| && (found.None? || WellKeyed(found.value))
    ensures DocumentLoop(evs, pos, found).Ok? ==> WellKeyed(DocumentLoop(evs, pos, found).value)
    decreases |evs| - pos
  {
    match EventAt(evs, pos)
    case Start(n, a) =>
      if n != "robot" {
        DocumentLoopKeyed(evs, pos + 1, found);
      } else {
        match GetRequiredAttribute(a, "name") {
          case Err(e) =>
          case Ok(name) =>
            RobotLoopKeyed(evs, pos + 1, EmptyRobot(name));
            match ParseRobot(evs, pos + 1, a) {
              case Err(e) =>
              case Ok((rb, p)) => DocumentLoopKeyed(evs, p, Some(rb));
            }
        }
      }
    case Eof =>
    case _ => DocumentLoopKeyed(evs, pos + 1, found);
  }

  /** Self-closing tags at robot level are not recorded: a childless `<link/>` does not make a link. */
  lemma SelfClosingLinkIgnored()
    ensures ParseString([Start("robot", [Attr("name", "r")]), Empty("link", [Attr("name", "base")]), End("robot")])
      == Ok(EmptyRobot("r"))
  {
    var evs := [Start("robot", [Attr("name", "r")]), Empty("link", [Attr("name", "base")]), End("robot")];
    assert RobotLoop(evs, 2, EmptyRobot("r")) == Ok((EmptyRobot("r"), 3));
    assert RobotLoop(evs, 1, EmptyRobot("r")) == Ok((EmptyRobot("r"), 3));
    assert DocumentLoop(evs, 3, Some(EmptyRobot("r"))) == Ok(EmptyRobot("r"));
  }

  /** A link that is never closed is an unexpected end of input. */
  lemma UnclosedLink(evs: seq<Event>, pos: nat, link: Link)
    requires pos <= |evs|
    requires forall i :: pos <= i < |evs| ==> evs[i] != End("link")
    ensures LinkLoop(evs, pos, link) == Err(UnexpectedEof)
  {
  }

  /**
   * A robot that is never closed is an error: the first error of a child, or, when no
   * child element is opened, an unexpected end of input.
   */
  lemma {:induction false} UnclosedRobot(evs: seq<Event>, pos: nat, robot: Robot)
    requires pos <= |evs|
    requires forall i :: pos <= i < |evs| ==> evs[i] != End("robot")
    ensures RobotLoop(evs, pos, robot).Err?
    ensures (forall i :: pos <= i < |evs| ==> !evs[i].Start?) ==> RobotLoop(evs, pos, robot) == Err(UnexpectedEof)
    decreases |evs| - pos
  {
    var e := EventAt(evs, pos);
    if e.Start? {
      assert pos < |evs| && evs[pos].Start?;
      var child := RobotChild(evs, pos + 1, robot, e.name, e.attrs);
      if child.Ok? {
        UnclosedRobot(evs, child.value.1, child.value.0);
        assert RobotLoop(evs, pos, robot) == RobotLoop(evs, child.value.1, child.value.0);
      } else {
        assert RobotLoop(evs, pos, robot) == Err(child.error);
      }
    } else if !e.Eof? {
      assert pos < |evs| && e != End("robot");
      UnclosedRobot(evs, pos + 1, robot);
      assert RobotLoop(evs, pos, robot) == RobotLoop(evs, pos + 1, robot);
    }
  }

  /**
   * A joint that is never closed is an error: that of a tag inside it, or, when it holds
   * no tag at all, an unexpected end of input.
   */
  lemma {:induction false} UnclosedJoint(evs: seq<Event>, pos: nat, joint: Joint)
    requires pos <= |evs|
    requires forall i :: pos <= i < |evs| ==> evs[i] != End("joint")
    ensures JointLoop(evs, pos, joint).Err?
    ensures (forall i :: pos <= i < |evs| ==> !evs[i].Start? && !evs[i].Empty?) ==> JointLoop(evs, pos, joint) == Err(UnexpectedEof)
    decreases |evs| - pos
  {
    var e := EventAt(evs, pos);
    if e.Start? || e.Empty? {
      var t := JointTag(evs, pos, joint, e.name, e.attrs);
      if t.Ok? {
        UnclosedJoint(evs, t.value.1, t.value.0);
      }
    } else if !e.Eof? {
      UnclosedJoint(evs, pos + 1, joint);
    }
  }

  /** Only opening tags reach a link's parser: a link whose own events open no element is left as it started. */
  lemma {:induction false} LinkIgnoresSelfClosing(evs: seq<Event>, pos: nat, link: Link)
    requires pos <= |evs| && LinkLoop(evs, pos, link).Ok?
    ensures var (l, end) := LinkLoop(evs, pos, link).value;
      (forall i :: pos <= i < end ==> !evs[i].Start?) ==> l == link
    decreases |evs| - pos
  {
    match EventAt(evs, pos)
    case Start(n, a) =>
    case End(n) => if n != "link" { LinkIgnoresSelfClosing(evs, pos + 1, link); }
    case Eof =>
    case _ => LinkIgnoresSelfClosing(evs, pos + 1, link);
  }

  /** The same at robot level: self-closing children, such as a childless `<link/>`, are not recorded. */
  lemma {:induction false} RobotIgnoresSelfClosing(evs: seq<Event>, pos: nat, robot: Robot)
    requires pos <= |evs| && RobotLoop(evs, pos, robot).Ok?
    ensures var (rb, end) := RobotLoop(evs, pos, robot).value;
      (forall i :: pos <= i < end ==> !evs[i].Start?) ==> rb == robot
    decreases |evs| - pos
  {
    match EventAt(evs, pos)
    case Start(n, a) =>
    case End(n) => if n != "robot" { RobotIgnoresSelfClosing(evs, pos + 1, robot); }
    case Eof =>
    case _ => RobotIgnoresSelfClosing(evs, pos + 1, robot);
  }

  method ParseRobotMethod(r: Reader, attrs: seq<Attr>) returns (res: Result<Robot>)
    requires r.Valid()
    modifies r
    ensures r.Valid() && Outcome(res, r.pos) == ParseRobot(r.events, old(r.pos), attrs)
  {
    var nameRes := GetRequiredAttribute(attrs, "name");
    if nameRes.Err? {
      return Err(nameRes.error);
    }
    var robot := EmptyRobot(nameRes.value);
    while true
      invariant r.Valid() && old(r.pos) <= r.pos
      invariant RobotLoop(r.events, r.pos, robot) == ParseRobot(r.events, old(r.pos), attrs)
      decreases |r.events| - r.pos
    {
      var e := r.ReadEvent();
      match e {
        case Start(n, a) =>
          var child := RobotChildMethod(r, robot, n, a);
          if child.Err? { return Err(child.error); }
          robot := child.value;
        case End(n) =>
          if n == "robot" {
            return Ok(robot);
          }
        case Eof =>
          return Err(UnexpectedEof);
        case _ =>
      }
    }
  }

  method RobotChildMethod(r: Reader, robot: Robot, n: string, a: seq<Attr>) returns (res: Result<Robot>)
    requires r.Valid()
    modifies r
    ensures r.Valid() && Outcome(res, r.pos) == RobotChild(r.events, old(r.pos), robot, n, a)
  {
    res := Ok(robot);
    if n == "link" {
      var l := ParseLinkMethod(r, a);
      if l.Err? { return Err(l.error); }
      res := Ok(robot.(links := Insert(robot.links, l.value.name, l.value)));
    } else if n == "joint" {
      var j := ParseJointMethod(r, a);
      if j.Err? { return Err(j.error); }
      res := Ok(robot.(joints := Insert(robot.joints, j.value.name, j.value)));
    } else if n == "material" {
      var nm := GetRequiredAttribute(a, "name");
      if nm.Err? { return Err(nm.error); }
      SkipElement(r);
      var m := Material(nm.value, None, None);
      res := Ok(robot.(materials := Insert(robot.materials, m.name, m)));
    } else if n == "gazebo" {
      var reference := GetOptionalAttribute(a, "reference");
      SkipElement(r);
      res := Ok(robot.(gazebo := robot.gazebo + [GazeboElement(reference, "")]));
    } else if n == "transmission" {
      var nm := GetRequiredAttribute(a, "name");
      if nm.Err? { return Err(nm.error); }
      SkipElement(r);
      res := Ok(robot.(transmissions := robot.transmissions + [TransmissionElement(nm.value, "")]));
    } else {
      SkipElement(r);
    }
  }

  /** `parse_string`: the document keeps the robot and the text it was read from. */
  method ParseStringMethod(events: seq<Event>) returns (res: Result<Document>)
    ensures ParseString(events).Err? ==> res == Err(ParseString(events).error)
    ensures ParseString(events).Ok? ==>
      res.Ok? && fresh(res.value) && res.value.robot == ParseString(events).value && res.value.rawXml == events
  {
    var r := new Reader(events);
    var found: Option<Robot> := None;
    while true
      invariant r.Valid() && r.events == events
      invariant DocumentLoop(events, r.pos, found) == ParseString(events)
      decreases |events| - r.pos
    {
      var e := r.ReadEvent();
      match e {
        case Start(n, a) =>
          if n == "robot" {
            var rb := ParseRobotMethod(r, a);
            if rb.Err? { return Err(rb.error); }
            found := Some(rb.value);
          }
        case Eof =>
          if found.None? {
            return Err(NoRobot);
          }
          var doc := new Document(found.value, events);
          return Ok(doc);
        case _ =>
      }
    }
  }

  // ---------------------------------------------------------------- structural validation

  function DanglingParent(j: Joint): string {
    "Joint '" + j.name + "' references non-existent parent link '" + j.parent + "'"
  }

  function DanglingChild(j: Joint): string {
    "Joint '" + j.name + "' references non-existent child link '" + j.child + "'"
  }

  /** One message per joint endpoint that names no link, joint by joint, parent before child. */
  function EndpointIssues(joints: seq<(string, Joint)>, links: IndexMap<Link>): (issues: seq<string>)
    ensures |issues| <= 2 * |joints|
  {
    if joints == [] then [] else JointIssues(joints[0].1, links) + EndpointIssues(joints[1..], links)
  }

  function JointIssues(j: Joint, links: IndexMap<Link>): (issues: seq<string>)
    ensures |issues| <= 2
  {
    (if j.parent in Keys(links) then [] else [DanglingParent(j)])
    + (if j.child in Keys(links) then [] else [DanglingChild(j)])
  }

  /** `validate_urdf_structure`: empty name, no links, then dangling joint endpoints. */
  function ValidationIssues(robot: Robot): (issues: seq<string>)
    ensures robot.name == "" ==> |issues| > 0 && issues[0] == "Robot name is empty"
    ensures |issues| <= 2 + 2 * |robot.joints|
  {
    (if robot.name == "" then ["Robot name is empty"] else [])
    + (if |robot.links| == 0 then ["No links defined in robot"] else [])
    + EndpointIssues(robot.joints, robot.links)
  }

  predicate EndpointsResolve(joints: seq<(string, Joint)>, links: IndexMap<Link>) {
    forall i :: 0 <= i < |joints| ==> joints[i].1.parent in Keys(links) && joints[i].1.child in Keys(links)
  }

  lemma {:induction false} EndpointIssuesEmpty(joints: seq<(string, Joint)>, links: IndexMap<Link>)
    ensures EndpointIssues(joints, links) == [] <==> EndpointsResolve(joints, links)
  {
    if joints != [] {
      EndpointIssuesEmpty(joints[1..], links);
      assert EndpointsResolve(joints, links) <==>
        joints[0].1.parent in Keys(links) && joints[0].1.child in Keys(links) && EndpointsResolve(joints[1..], links) by {
        if EndpointsResolve(joints[1..], links) {
          forall i | 1 <= i < |joints| ensures joints[i].1.parent in Keys(links) && joints[i].1.child in Keys(links) {
            assert joints[i] == joints[1..][i - 1];
          }
        }
      }
    }
  }

  /** A robot passes structural validation exactly when it is named, has a link, and every joint endpoint names a link. */
  lemma ValidationIssuesEmpty(robot: Robot)
    ensures ValidationIssues(robot) == [] <==>
      robot.name != "" && |robot.links| > 0 && EndpointsResolve(robot.joints, robot.links)
  {
    EndpointIssuesEmpty(robot.joints, robot.links);
  }

  /** The endpoint messages of two runs of joints are those of the first run, then those of the second. */
  lemma {:induction false} EndpointIssuesAppend(a: seq<(string, Joint)>, b: seq<(string, Joint)>, links: IndexMap<Link>)
    ensures EndpointIssues(a + b, links) == EndpointIssues(a, links) + EndpointIssues(b, links)
  {
    if a == [] {
      assert a + b == b;
    } else {
      assert (a + b)[0] == a[0] && (a + b)[1..] == a[1..] + b;
      EndpointIssuesAppend(a[1..], b, links);
    }
  }

  /** `m` is the message for an endpoint of `j` that names no link. */
  predicate ReportsEndpoint(j: Joint, links: IndexMap<Link>, m: string) {
    || (j.parent !in Keys(links) && m == DanglingParent(j))
    || (j.child !in Keys(links) && m == DanglingChild(j))
  }

  /** The joints, among the first `n`, whose parent names no link. */
  function DanglingParents(joints: seq<(string, Joint)>, links: IndexMap<Link>, n: nat): set<nat> {
    set i: nat | i < n && i < |joints| && joints[i].1.parent !in Keys(links)
  }

  /** The joints, among the first `n`, whose child names no link. */
  function DanglingChildren(joints: seq<(string, Joint)>, links: IndexMap<Link>, n: nat): set<nat> {
    set i: nat | i < n && i < |joints| && joints[i].1.child !in Keys(links)
  }

  /** The first `n` joints give one message per endpoint that names no link. */
  lemma {:induction false} EndpointIssuesCount(joints: seq<(string, Joint)>, links: IndexMap<Link>, n: nat)
    requires n <= |joints|
    ensures |EndpointIssues(joints[..n], links)| == |DanglingParents(joints, links, n)| + |DanglingChildren(joints, links, n)|
  {
    if n == 0 {
      assert DanglingParents(joints, links, 0) == {};
      assert DanglingChildren(joints, links, 0) == {};
    } else {
      EndpointIssuesCount(joints, links, n - 1);
      EndpointIssuesStep(joints, links, n - 1);
      DanglingParentsSnoc(joints, links, n);
      DanglingChildrenSnoc(joints, links, n);
    }
  }

  /** Taking one more joint adds its index to the dangling parents when its parent names no link. */
  lemma DanglingParentsSnoc(joints: seq<(string, Joint)>, links: IndexMap<Link>, n: nat)
    requires 0 < n <= |joints|
    ensures |DanglingParents(joints, links, n)|
      == |DanglingParents(joints, links, n - 1)| + (if joints[n - 1].1.parent in Keys(links) then 0 else 1)
  {
    var ps, ps' := DanglingParents(joints, links, n - 1), DanglingParents(joints, links, n);
    var extra: set<nat> := if joints[n - 1].1.parent in Keys(links) then {} else {n - 1};
    assert n - 1 !in ps;
    forall i: nat | i in ps' ensures i in ps + extra {
      if i < n - 1 { assert i in ps; }
    }
    assert ps' == ps + extra;
  }

  /** The same for the dangling children. */
  lemma DanglingChildrenSnoc(joints: seq<(string, Joint)>, links: IndexMap<Link>, n: nat)
    requires 0 < n <= |joints|
    ensures |DanglingChildren(joints, links, n)|
      == |DanglingChildren(joints, links, n - 1)| + (if joints[n - 1].1.child in Keys(links) then 0 else 1)
  {
    var cs, cs' := DanglingChildren(joints, links, n - 1), DanglingChildren(joints, links, n);
    var extra: set<nat> := if joints[n - 1].1.child in Keys(links) then {} else {n - 1};
    assert n - 1 !in cs;
    forall i: nat | i in cs' ensures i in cs + extra {
      if i < n - 1 { assert i in cs; }
    }
    assert cs' == cs + extra;
  }

  /**
   * The endpoint messages: as many as there are endpoints naming no link, and a message is
   * among them exactly when it reports such an endpoint.
   */
  lemma {:induction false} EndpointIssuesMeaning(joints: seq<(string, Joint)>, links: IndexMap<Link>, m: string)
    ensures |EndpointIssues(joints, links)| == |DanglingParents(joints, links, |joints|)| + |DanglingChildren(joints, links, |joints|)|
    ensures m in EndpointIssues(joints, links) <==>
      exists i :: 0 <= i < |joints| && ReportsEndpoint(joints[i].1, links, m)
  {
    assert joints[..|joints|] == joints;
    EndpointIssuesCount(joints, links, |joints|);
    EndpointIssuesHas(joints, links, m);
  }

  lemma {:induction false} EndpointIssuesHas(joints: seq<(string, Joint)>, links: IndexMap<Link>, m: string)
    ensures m in EndpointIssues(joints, links) <==>
      exists i :: 0 <= i < |joints| && ReportsEndpoint(joints[i].1, links, m)
  {
    if joints != [] {
      var j := joints[0].1;
      EndpointIssuesHas(joints[1..], links, m);
      assert EndpointIssues(joints, links) == JointIssues(j, links) + EndpointIssues(joints[1..], links);
      if m in EndpointIssues(joints[1..], links) {
        var i :| 0 <= i < |joints[1..]| && ReportsEndpoint(joints[1..][i].1, links, m);
        assert joints[1..][i] == joints[i + 1];
      }
      if exists i :: 0 <= i < |joints| && ReportsEndpoint(joints[i].1, links, m)
      {
        var i :| 0 <= i < |joints| &&
          ((joints[i].1.parent !in Keys(links) && m == DanglingParent(joints[i].1))
          || (joints[i].1.child !in Keys(links) && m == DanglingChild(joints[i].1)));
        if i > 0 {
          assert joints[i] == joints[1..][i - 1];
        }
      }
    }
  }

  /**
   * The messages come joint by joint: those of joint `i` start where those of the joints
   * before it end, the parent's message before the child's.
   */
  lemma EndpointIssuesOrder(joints: seq<(string, Joint)>, links: IndexMap<Link>, i: nat)
    requires i < |joints|
    ensures var issues, p, j := EndpointIssues(joints, links), |EndpointIssues(joints[..i], links)|, joints[i].1;
      var pd := j.parent !in Keys(links);
      var cd := j.child !in Keys(links);
      && p + (if pd then 1 else 0) + (if cd then 1 else 0) == |EndpointIssues(joints[..i + 1], links)| <= |issues|
      && (pd ==> issues[p] == DanglingParent(j))
      && (cd ==> issues[p + (if pd then 1 else 0)] == DanglingChild(j))
  {
    assert joints == joints[..i + 1] + joints[i + 1..];
    EndpointIssuesAppend(joints[..i + 1], joints[i + 1..], links);
    EndpointIssuesStep(joints, links, i);
  }

  /** Every endpoint message starts with `J`, as in `Joint '…'`. */
  lemma {:induction false} EndpointIssuesAreAboutJoints(joints: seq<(string, Joint)>, links: IndexMap<Link>)
    ensures forall m :: m in EndpointIssues(joints, links) ==> m != [] && m[0] == 'J'
  {
    if joints != [] {
      EndpointIssuesAreAboutJoints(joints[1..], links);
    }
  }

  /** Neither robot-level message is an endpoint message. */
  lemma RobotMessagesNotEndpoint(joints: seq<(string, Joint)>, links: IndexMap<Link>)
    ensures "Robot name is empty" !in EndpointIssues(joints, links)
    ensures "No links defined in robot" !in EndpointIssues(joints, links)
  {
    EndpointIssuesAreAboutJoints(joints, links);
    assert "Robot name is empty"[0] == 'R' && "No links defined in robot"[0] == 'N';
  }

  /** The robot-level messages: the name message first, then the no-link message, then the endpoint messages. */
  lemma ValidationIssuesMeaning(robot: Robot)
    ensures var issues := ValidationIssues(robot);
      var off := (if robot.name == "" then 1 else 0) + (if |robot.links| == 0 then 1 else 0);
      && ("Robot name is empty" in issues <==> robot.name == "")
      && (robot.name == "" ==> issues[0] == "Robot name is empty")
      && ("No links defined in robot" in issues <==> |robot.links| == 0)
      && (|robot.links| == 0 ==> issues[if robot.name == "" then 1 else 0] == "No links defined in robot")
      && off <= |issues| && issues[off..] == EndpointIssues(robot.joints, robot.links)
  {
    var issues := ValidationIssues(robot);
    var e := EndpointIssues(robot.joints, robot.links);
    var head := (if robot.name == "" then ["Robot name is empty"] else [])
      + (if |robot.links| == 0 then ["No links defined in robot"] else []);
    assert issues == head + e;
    assert issues[|head|..] == e;
    RobotMessagesNotEndpoint(robot.joints, robot.links);
    assert "Robot name is empty" != "No links defined in robot";
    if robot.name == "" {
      assert issues[0] == "Robot name is empty";
    }
    if |robot.links| == 0 {
      assert issues[|head| - 1] == "No links defined in robot";
    }
  }

  lemma EndpointIssuesStep(joints: seq<(string, Joint)>, links: IndexMap<Link>, i: nat)
    requires i < |joints|
    ensures EndpointIssues(joints[..i + 1], links) == EndpointIssues(joints[..i], links) + JointIssues(joints[i].1, links)
    decreases i
  {
    if i > 0 {
      assert joints[..i + 1][1..] == joints[1..][..i];
      assert joints[..i][1..] == joints[1..][..i - 1];
      EndpointIssuesStep(joints[1..], links, i - 1);
    }
  }

  method ValidateUrdfStructure(doc: Document) returns (issues: seq<string>)
    ensures issues == ValidationIssues(doc.robot)
  {
    var robot := doc.robot;
    issues := [];
    if robot.name == "" {
      issues := issues + ["Robot name is empty"];
    }
    if |robot.links| == 0 {
      issues := issues + ["No links defined in robot"];
    }
    var endpoints := CheckEndpoints(robot.joints, robot.links);
    issues := issues + endpoints;
  }

  /** The loop over the joints of `validate_urdf_structure`. */
  method CheckEndpoints(joints: IndexMap<Joint>, links: IndexMap<Link>) returns (issues: seq<string>)
    ensures issues == EndpointIssues(joints, links)
  {
    issues := [];
    for i := 0 to |joints|
      invariant issues == EndpointIssues(joints[..i], links)
    {
      var joint := joints[i].1;
      EndpointIssuesStep(joints, links, i);
      ghost var before := issues;
      ghost var p := if joint.parent in Keys(links) then [] else [DanglingParent(joint)];
      ghost var c := if joint.child in Keys(links) then [] else [DanglingChild(joint)];
      if joint.parent !in Keys(links) {
        issues := issues + [DanglingParent(joint)];
      }
      assert issues == before + p;
      if joint.child !in Keys(links) {
        issues := issues + [DanglingChild(joint)];
      }
      assert issues == (before + p) + c;
      assert JointIssues(joint, links) == p + c;
    }
    assert joints[..|joints|] == joints;
  }
}
