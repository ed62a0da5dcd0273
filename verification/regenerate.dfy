/**
 * The regeneration pass of the fixer: the robot is written back out as a stream of tag
 * events, in a fixed order (the robot's opening tag, the materials, the links, the
 * joints, the gazebo blocks, the transmissions, the robot's closing tag). The writer
 * only writes skeletons: a link or a material is an empty element pair or a self-closing
 * tag, a joint keeps its endpoints, origin and axis, and gazebo and transmission blocks
 * are self-closing.
 *
 * The partner of the writer is the parser: reading a regenerated stream back gives
 * exactly the skeleton robot `ReadBack`, which shows what a regeneration keeps and what
 * it loses.
 */
module Regenerate {
  import opened Base
  import opened IndexMaps
  import opened Urdf
  import opened Parser

  function NameAttr(name: string): seq<Attr> { [Attr("name", name)] }

  /**
   * The events of one written element called `name`: a self-closing tag, or an opening
   * tag, self-closing children only, and the closing tag.
   */
  predicate Element(evs: seq<Event>, name: string, attrs: seq<Attr>) {
    || evs == [Empty(name, attrs)]
    || (&& |evs| >= 2 && evs[0] == Start(name, attrs) && evs[|evs| - 1] == End(name)
        && forall i :: 0 < i < |evs| - 1 ==> evs[i].Empty?)
  }

  /** A written element holds no closing tag of another name. */
  lemma ElementCloses(evs: seq<Event>, name: string, attrs: seq<Attr>, other: string)
    requires Element(evs, name, attrs) && other != name
    ensures End(other) !in evs
  {
    if End(other) in evs {
      var i :| 0 <= i < |evs| && evs[i] == End(other);
    }
  }

  /** A material with a color or a texture is written as an (empty) element pair, any other as a self-closing tag. */
  predicate HasBody(m: Material) { m.color.Some? || m.texture.Some? }

  /** `write_material`. */
  function MaterialEvents(m: Material): seq<Event> {
    if HasBody(m) then [Start("material", NameAttr(m.name)), End("material")]
    else [Empty("material", NameAttr(m.name))]
  }

  /** `write_link`: an element pair when the link has an inertial, a visual or a collision; its children are not written. */
  function LinkEvents(l: Link): seq<Event> {
    if HasContent(l) then [Start("link", NameAttr(l.name)), End("link")]
    else [Empty("link", NameAttr(l.name))]
  }

  function OriginAttrs(o: Origin): seq<Attr> { [Attr("xyz", TripleText(o.xyz)), Attr("rpy", TripleText(o.rpy))] }
  function AxisAttrs(a: Axis): seq<Attr> { [Attr("xyz", TripleText(a.xyz))] }

  function OriginEvents(o: Option<Origin>): seq<Event> {
    match o
    case None => []
    case Some(v) => [Empty("origin", OriginAttrs(v))]
  }

  function AxisEvents(a: Option<Axis>): seq<Event> {
    match a
    case None => []
    case Some(v) => [Empty("axis", AxisAttrs(v))]
  }

  function JointAttrs(j: Joint): seq<Attr> { [Attr("name", j.name), Attr("type", j.jointType)] }

  /** `write_joint`: name and type, then parent, child, the origin and the axis when present. */
  function JointEvents(j: Joint): seq<Event> {
    [Start("joint", JointAttrs(j)),
     Empty("parent", [Attr("link", j.parent)]),
     Empty("child", [Attr("link", j.child)])]
    + OriginEvents(j.origin) + AxisEvents(j.axis) + [End("joint")]
  }

  /** `write_gazebo`: a self-closing tag with the reference, when there is one. */
  function GazeboEvents(g: GazeboElement): seq<Event> {
    [Empty("gazebo", match g.reference case Some(r) => [Attr("reference", r)] case None => [])]
  }

  /** `write_transmission`. */
  function TransmissionEvents(t: TransmissionElement): seq<Event> {
    [Empty("transmission", NameAttr(t.name))]
  }

  /**
   * A material is written as one element carrying its name, an element pair exactly when
   * it has a color or a texture, and without children.
   */
  lemma MaterialWritten(m: Material)
    ensures var evs := MaterialEvents(m);
      && Element(evs, "material", NameAttr(m.name)) && |evs| <= 2
      && (evs[0].Start? <==> HasBody(m))
      && GetOptionalAttribute(evs[0].attrs, "name") == Some(m.name)
  {
  }

  /**
   * A link is written as one element carrying its name, an element pair exactly when it
   * has content, and without children.
   */
  lemma LinkWritten(l: Link)
    ensures var evs := LinkEvents(l);
      && Element(evs, "link", NameAttr(l.name)) && |evs| <= 2
      && (evs[0].Start? <==> HasContent(l))
      && GetOptionalAttribute(evs[0].attrs, "name") == Some(l.name)
  {
  }

  /**
   * A joint is written as one element pair carrying its name and type, with its parent
   * and child first, then its origin and axis when present.
   */
  lemma JointWritten(j: Joint)
    ensures var evs := JointEvents(j);
      && Element(evs, "joint", JointAttrs(j)) && evs[0].Start?
      && GetOptionalAttribute(evs[0].attrs, "name") == Some(j.name)
      && GetOptionalAttribute(evs[0].attrs, "type") == Some(j.jointType)
      && evs[1] == Empty("parent", [Attr("link", j.parent)]) && evs[2] == Empty("child", [Attr("link", j.child)])
      && |evs| == 4 + (if j.origin.Some? then 1 else 0) + (if j.axis.Some? then 1 else 0)
  {
  }

  /** A gazebo block is one self-closing tag whose `reference` reads back as the block's reference. */
  lemma GazeboWritten(g: GazeboElement)
    ensures var evs := GazeboEvents(g);
      && |evs| == 1 && evs[0].Empty? && evs[0].name == "gazebo"
      && GetOptionalAttribute(evs[0].attrs, "reference") == g.reference
  {
  }

  /** A transmission is one self-closing tag carrying its name. */
  lemma TransmissionWritten(t: TransmissionElement)
    ensures var evs := TransmissionEvents(t);
      && Element(evs, "transmission", NameAttr(t.name)) && |evs| == 1
      && GetOptionalAttribute(evs[0].attrs, "name") == Some(t.name)
  {
  }

  function MaterialEntryEvents(e: (string, Material)): seq<Event> { MaterialEvents(e.1) }
  function LinkEntryEvents(e: (string, Link)): seq<Event> { LinkEvents(e.1) }
  function JointEntryEvents(e: (string, Joint)): seq<Event> { JointEvents(e.1) }

  /** The events written for each item of `xs`, in order. */
  function Written<T>(xs: seq<T>, write: T -> seq<Event>): seq<Event> {
    if xs == [] then [] else Written(xs[..|xs| - 1], write) + write(xs[|xs| - 1])
  }

  lemma WrittenSnoc<T>(xs: seq<T>, i: nat, write: T -> seq<Event>)
    requires i < |xs|
    ensures Written(xs[..i + 1], write) == Written(xs[..i], write) + write(xs[i])
  {
    assert xs[..i + 1][..i] == xs[..i];
  }

  /** `regenerate_xml_with_formatting`: the whole document, in the writer's order. */
  function Regenerated(r: Robot): seq<Event> {
    [Start("robot", NameAttr(r.name))]
    + Written(r.materials, MaterialEntryEvents)
    + Written(r.links, LinkEntryEvents)
    + Written(r.joints, JointEntryEvents)
    + Written(r.gazebo, GazeboEvents)
    + Written(r.transmissions, TransmissionEvents)
    + [End("robot")]
  }

  /** Written elements hold no closing tag of another name. */
  lemma {:induction false} WrittenCloses<T>(xs: seq<T>, write: T -> seq<Event>, other: string)
    requires forall x :: End(other) !in write(x)
    ensures End(other) !in Written(xs, write)
  {
    if xs != [] {
      WrittenCloses(xs[..|xs| - 1], write, other);
    }
  }

  /**
   * A regenerated document is one robot element: it opens with the robot's tag carrying
   * its name, and the only closing `robot` tag is the last event.
   */
  lemma RegeneratedIsOneElement(r: Robot)
    ensures var evs := Regenerated(r);
      && |evs| >= 2 && evs[0] == Start("robot", NameAttr(r.name)) && evs[|evs| - 1] == End("robot")
      && End("robot") !in evs[1..|evs| - 1]
  {
    var mid := Written(r.materials, MaterialEntryEvents) + Written(r.links, LinkEntryEvents)
      + Written(r.joints, JointEntryEvents) + Written(r.gazebo, GazeboEvents) + Written(r.transmissions, TransmissionEvents);
    var evs := Regenerated(r);
    assert evs == [Start("robot", NameAttr(r.name))] + mid + [End("robot")];
    assert evs[1..|evs| - 1] == mid;
    WrittenClosesNoRobot(r);
  }

  /** Nothing written between the robot's tags closes the robot. */
  lemma WrittenClosesNoRobot(r: Robot)
    ensures End("robot") !in Written(r.materials, MaterialEntryEvents) + Written(r.links, LinkEntryEvents)
      + Written(r.joints, JointEntryEvents) + Written(r.gazebo, GazeboEvents) + Written(r.transmissions, TransmissionEvents)
  {
    forall e: (string, Material) ensures End("robot") !in MaterialEntryEvents(e) {
      MaterialWritten(e.1);
      ElementCloses(MaterialEvents(e.1), "material", NameAttr(e.1.name), "robot");
    }
    forall e: (string, Link) ensures End("robot") !in LinkEntryEvents(e) {
      LinkWritten(e.1);
      ElementCloses(LinkEvents(e.1), "link", NameAttr(e.1.name), "robot");
    }
    forall e: (string, Joint) ensures End("robot") !in JointEntryEvents(e) {
      JointWritten(e.1);
      ElementCloses(JointEvents(e.1), "joint", JointAttrs(e.1), "robot");
    }
    forall g: GazeboElement ensures End("robot") !in GazeboEvents(g) {
      assert GazeboEvents(g) == [Empty("gazebo", GazeboEvents(g)[0].attrs)];
    }
    forall t: TransmissionElement ensures End("robot") !in TransmissionEvents(t) {
      TransmissionWritten(t);
      ElementCloses(TransmissionEvents(t), "transmission", NameAttr(t.name), "robot");
    }
    WrittenCloses(r.materials, MaterialEntryEvents, "robot");
    WrittenCloses(r.links, LinkEntryEvents, "robot");
    WrittenCloses(r.joints, JointEntryEvents, "robot");
    WrittenCloses(r.gazebo, GazeboEvents, "robot");
    WrittenCloses(r.transmissions, TransmissionEvents, "robot");
  }

  /** One of the writer's loops: each item of `xs` is written after `out`, in order. */
  method WriteEach<T>(out: seq<Event>, xs: seq<T>, write: T -> seq<Event>) returns (out': seq<Event>)
    ensures out' == out + Written(xs, write)
  {
    out' := out;
    for i := 0 to |xs|
      invariant out' == out + Written(xs[..i], write)
    {
      WrittenSnoc(xs, i, write);
      out' := out' + write(xs[i]);
    }
    assert xs[..|xs|] == xs;
  }

  /** `regenerate_xml`: the document's text becomes the regenerated stream; the robot is not touched. */
  method RegenerateXml(doc: Document)
    modifies doc
    ensures doc.robot == old(doc.robot)
    ensures doc.rawXml == Regenerated(doc.robot)
  {
    var r := doc.robot;
    var out := [Start("robot", NameAttr(r.name))];
    out := WriteEach(out, r.materials, MaterialEntryEvents);
    out := WriteEach(out, r.links, LinkEntryEvents);
    out := WriteEach(out, r.joints, JointEntryEvents);
    out := WriteEach(out, r.gazebo, GazeboEvents);
    out := WriteEach(out, r.transmissions, TransmissionEvents);
    doc.rawXml := out + [End("robot")];
  }

  // ---------------------------------------------------------------- reading it back

  /** The parser can read back every number the writer writes: each origin and axis triple is made of number tokens. */
  predicate NumbersWritten(j: Joint) {
    && (j.origin.Some? ==> NumericTriple(j.origin.value.xyz) && NumericTriple(j.origin.value.rpy))
    && (j.axis.Some? ==> NumericTriple(j.axis.value.xyz))
  }

  /** What the parser makes of a written link, material or joint. */
  function StubLink(l: Link): Link { Link(l.name, None, [], []) }
  function StubMaterial(m: Material): Material { Material(m.name, None, None) }
  function StubJoint(j: Joint): Joint { j.(limit := None, dynamics := None, mimic := None) }

  /** What reading one written material adds to the materials collected so far: only a material written with a body is read. */
  function ReadBackMaterial(acc: IndexMap<Material>, m: Material): IndexMap<Material> {
    if HasBody(m) then Insert(acc, m.name, StubMaterial(m)) else acc
  }

  /** Only a link written as an element pair, one with content, is read. */
  function ReadBackLink(acc: IndexMap<Link>, l: Link): IndexMap<Link> {
    if HasContent(l) then Insert(acc, l.name, StubLink(l)) else acc
  }

  function ReadBackJoint(acc: IndexMap<Joint>, j: Joint): IndexMap<Joint> {
    Insert(acc, j.name, StubJoint(j))
  }

  /** The materials the parser collects from the written materials `ms`, added to `acc`. */
  function ReadBackMaterials(acc: IndexMap<Material>, ms: seq<(string, Material)>): IndexMap<Material> {
    if ms == [] then acc else ReadBackMaterial(ReadBackMaterials(acc, ms[..|ms| - 1]), ms[|ms| - 1].1)
  }

  function ReadBackLinks(acc: IndexMap<Link>, ls: seq<(string, Link)>): IndexMap<Link> {
    if ls == [] then acc else ReadBackLink(ReadBackLinks(acc, ls[..|ls| - 1]), ls[|ls| - 1].1)
  }

  function ReadBackJoints(acc: IndexMap<Joint>, js: seq<(string, Joint)>): IndexMap<Joint> {
    if js == [] then acc else ReadBackJoint(ReadBackJoints(acc, js[..|js| - 1]), js[|js| - 1].1)
  }

  /** The robot a regenerated document parses to. */
  function ReadBack(r: Robot): Robot {
    Robot(r.name, ReadBackLinks([], r.links), ReadBackJoints([], r.joints), ReadBackMaterials([], r.materials), [], [])
  }

  lemma SplitSlice(evs: seq<Event>, pos: nat, mid: nat, end: nat, w1: seq<Event>, w2: seq<Event>)
    requires mid == pos + |w1| && end == mid + |w2| <= |evs| && evs[pos..end] == w1 + w2
    ensures evs[pos..mid] == w1
    ensures evs[mid..end] == w2
  {
    assert evs[pos..mid] == evs[pos..end][..|w1|];
    assert evs[mid..end] == evs[pos..end][|w1|..];
  }

  lemma ReadMaterial(evs: seq<Event>, pos: nat, end: nat, robot: Robot, robot': Robot, m: Material)
    requires end == pos + |MaterialEvents(m)| <= |evs| && evs[pos..end] == MaterialEvents(m)
    requires robot' == robot.(materials := ReadBackMaterial(robot.materials, m))
    ensures RobotLoop(evs, pos, robot) == RobotLoop(evs, end, robot')
  {
    var w := MaterialEvents(m);
    EventAtOffset(evs, pos, w, 0);
    if HasBody(m) {
      EventAtOffset(evs, pos, w, 1);
      MaterialPair(evs, pos, end, robot, robot', m);
    } else {
      RobotEmptyStep(evs, pos, robot, "material", NameAttr(m.name));
    }
  }

  /** A material written as an element pair moves the robot loop past both tags. */
  lemma MaterialPair(evs: seq<Event>, pos: nat, end: nat, robot: Robot, robot': Robot, m: Material)
    requires HasBody(m) && end == pos + 2 <= |evs|
    requires evs[pos] == Start("material", NameAttr(m.name)) && evs[pos + 1] == End("material")
    requires robot' == robot.(materials := ReadBackMaterial(robot.materials, m))
    ensures RobotLoop(evs, pos, robot) == RobotLoop(evs, end, robot')
  {
    MaterialChild(evs, pos, end, robot, robot', m);
    RobotStartStep(evs, pos, end, robot, robot', "material", NameAttr(m.name));
  }

  /** A material written as an element pair is read back by the robot's child parser. */
  lemma MaterialChild(evs: seq<Event>, pos: nat, end: nat, robot: Robot, robot': Robot, m: Material)
    requires HasBody(m) && end == pos + 2 <= |evs| && evs[pos + 1] == End("material")
    requires robot' == robot.(materials := ReadBackMaterial(robot.materials, m))
    ensures RobotChild(evs, pos + 1, robot, "material", NameAttr(m.name)) == Ok((robot', end))
  {
    SkipEnd(evs, pos + 1);
    NameFound(m.name);
    assert ParseMaterial(evs, pos + 1, NameAttr(m.name)) == Ok((StubMaterial(m), end));
  }

  /** An element whose next event is its closing tag is skipped by stepping over that tag. */
  lemma SkipEnd(evs: seq<Event>, pos: nat)
    requires pos < |evs| && evs[pos].End?
    ensures SkipLoop(evs, pos, 1) == pos + 1
  {
    assert EventAt(evs, pos) == evs[pos];
  }

  /** The `name` attribute the writer puts on a tag is found again. */
  lemma NameFound(name: string)
    ensures GetRequiredAttribute(NameAttr(name), "name") == Ok(name)
  {
  }

  /** At robot level, a self-closing tag is passed over. */
  lemma RobotEmptyStep(evs: seq<Event>, pos: nat, robot: Robot, name: string, attrs: seq<Attr>)
    requires pos < |evs| && evs[pos] == Empty(name, attrs)
    ensures RobotLoop(evs, pos, robot) == RobotLoop(evs, pos + 1, robot)
  {
    assert EventAt(evs, pos) == Empty(name, attrs);
  }

  lemma ReadLink(evs: seq<Event>, pos: nat, end: nat, robot: Robot, robot': Robot, l: Link)
    requires end == pos + |LinkEvents(l)| <= |evs| && evs[pos..end] == LinkEvents(l)
    requires robot' == robot.(links := ReadBackLink(robot.links, l))
    ensures RobotLoop(evs, pos, robot) == RobotLoop(evs, end, robot')
  {
    var w := LinkEvents(l);
    EventAtOffset(evs, pos, w, 0);
    if HasContent(l) {
      EventAtOffset(evs, pos, w, 1);
      LinkPair(evs, pos, end, robot, robot', l);
    } else {
      RobotEmptyStep(evs, pos, robot, "link", NameAttr(l.name));
    }
  }

  /** A link written as an element pair moves the robot loop past both tags. */
  lemma LinkPair(evs: seq<Event>, pos: nat, end: nat, robot: Robot, robot': Robot, l: Link)
    requires HasContent(l) && end == pos + 2 <= |evs|
    requires evs[pos] == Start("link", NameAttr(l.name)) && evs[pos + 1] == End("link")
    requires robot' == robot.(links := ReadBackLink(robot.links, l))
    ensures RobotLoop(evs, pos, robot) == RobotLoop(evs, end, robot')
  {
    LinkChild(evs, pos, end, robot, robot', l);
    RobotStartStep(evs, pos, end, robot, robot', "link", NameAttr(l.name));
  }

  /** A link written as an element pair is read back by the robot's child parser. */
  lemma LinkChild(evs: seq<Event>, pos: nat, end: nat, robot: Robot, robot': Robot, l: Link)
    requires HasContent(l) && end == pos + 2 <= |evs| && evs[pos + 1] == End("link")
    requires robot' == robot.(links := ReadBackLink(robot.links, l))
    ensures RobotChild(evs, pos + 1, robot, "link", NameAttr(l.name)) == Ok((robot', end))
  {
    assert EventAt(evs, pos + 1) == End("link");
    assert LinkLoop(evs, pos + 1, StubLink(l)) == Ok((StubLink(l), end));
    NameFound(l.name);
    assert ParseLink(evs, pos + 1, NameAttr(l.name)) == Ok((StubLink(l), end));
  }

  /** A recognised self-closing tag inside a joint sets its field and moves on. */
  lemma JointTagStep(evs: seq<Event>, pos: nat, next: nat, joint: Joint, joint': Joint, name: string, attrs: seq<Attr>)
    requires pos < |evs| && evs[pos] == Empty(name, attrs) && next == pos + 1
    requires JointField(joint, name, attrs) == Some(Ok(joint'))
    ensures JointLoop(evs, pos, joint) == JointLoop(evs, next, joint')
  {
    assert EventAt(evs, pos) == Empty(name, attrs);
    assert JointTag(evs, pos, joint, name, attrs) == Ok((joint', next));
  }

  lemma OriginReadBack(o: Origin)
    requires NumericTriple(o.xyz) && NumericTriple(o.rpy)
    ensures ParseOrigin(OriginAttrs(o)) == Ok(o)
  {
    var a := OriginAttrs(o);
    ParseTripleText(o.xyz);
    ParseTripleText(o.rpy);
    assert GetOptionalAttribute(a, "xyz") == Some(TripleText(o.xyz));
    assert GetOptionalAttribute(a, "rpy") == Some(TripleText(o.rpy));
  }

  lemma AxisReadBack(ax: Axis)
    requires NumericTriple(ax.xyz)
    ensures ParseAxis(AxisAttrs(ax)) == Ok(ax)
  {
    ParseTripleText(ax.xyz);
    assert GetOptionalAttribute(AxisAttrs(ax), "xyz") == Some(TripleText(ax.xyz));
  }

  /** Where each sub-tag of a written joint sits. */
  lemma JointLayout(j: Joint)
    ensures var je := JointEvents(j); var o := |OriginEvents(j.origin)|; var a := |AxisEvents(j.axis)|;
      && |je| == 4 + o + a
      && je[0] == Start("joint", JointAttrs(j))
      && je[1] == Empty("parent", [Attr("link", j.parent)])
      && je[2] == Empty("child", [Attr("link", j.child)])
      && (j.origin.Some? ==> je[3] == Empty("origin", OriginAttrs(j.origin.value)))
      && (j.axis.Some? ==> je[3 + o] == Empty("axis", AxisAttrs(j.axis.value)))
      && je[3 + o + a] == End("joint")
  {
  }

  lemma EventAtOffset(evs: seq<Event>, pos: nat, w: seq<Event>, k: nat)
    requires pos + |w| <= |evs| && evs[pos..pos + |w|] == w && k < |w|
    ensures evs[pos + k] == w[k]
  {
    assert evs[pos..pos + |w|][k] == evs[pos + k];
  }

  /** The events of a joint written at `pos`, one by one. */
  lemma JointEventsAt(evs: seq<Event>, pos: nat, j: Joint)
    requires pos + |JointEvents(j)| <= |evs| && evs[pos..pos + |JointEvents(j)|] == JointEvents(j)
    ensures var o := |OriginEvents(j.origin)|; var a := |AxisEvents(j.axis)|;
      && pos + 4 + o + a == pos + |JointEvents(j)|
      && evs[pos] == Start("joint", JointAttrs(j))
      && evs[pos + 1] == Empty("parent", [Attr("link", j.parent)])
      && evs[pos + 2] == Empty("child", [Attr("link", j.child)])
      && (j.origin.Some? ==> evs[pos + 3] == Empty("origin", OriginAttrs(j.origin.value)))
      && (j.axis.Some? ==> evs[pos + 3 + o] == Empty("axis", AxisAttrs(j.axis.value)))
      && evs[pos + 3 + o + a] == End("joint")
  {
    var je := JointEvents(j);
    var o := |OriginEvents(j.origin)|;
    var a := |AxisEvents(j.axis)|;
    JointLayout(j);
    EventAtOffset(evs, pos, je, 0);
    EventAtOffset(evs, pos, je, 1);
    EventAtOffset(evs, pos, je, 2);
    if j.origin.Some? {
      EventAtOffset(evs, pos, je, 3);
    }
    if j.axis.Some? {
      EventAtOffset(evs, pos, je, 3 + o);
    }
    EventAtOffset(evs, pos, je, 3 + o + a);
  }

  /** The joint read so far, before its origin, its axis, and after both. */
  function JointUpTo(j: Joint, stage: nat): Joint {
    var j0 := Joint(j.name, j.jointType, j.parent, j.child, None, None, None, None, None);
    if stage == 0 then j0 else if stage == 1 then j0.(origin := j.origin) else StubJoint(j)
  }

  lemma ReadEndpoints(evs: seq<Event>, at: nat, next: nat, j: Joint)
    requires at + 1 < |evs| && next == at + 2
    requires evs[at] == Empty("parent", [Attr("link", j.parent)]) && evs[at + 1] == Empty("child", [Attr("link", j.child)])
    ensures JointLoop(evs, at, Joint(j.name, j.jointType, "", "", None, None, None, None, None))
         == JointLoop(evs, next, JointUpTo(j, 0))
  {
    var j0 := Joint(j.name, j.jointType, "", "", None, None, None, None, None);
    JointTagStep(evs, at, at + 1, j0, j0.(parent := j.parent), "parent", [Attr("link", j.parent)]);
    JointTagStep(evs, at + 1, next, j0.(parent := j.parent), JointUpTo(j, 0), "child", [Attr("link", j.child)]);
  }

  lemma OriginField(j: Joint)
    requires NumbersWritten(j) && j.origin.Some?
    ensures JointField(JointUpTo(j, 0), "origin", OriginAttrs(j.origin.value)) == Some(Ok(JointUpTo(j, 1)))
  {
    OriginReadBack(j.origin.value);
  }

  lemma AxisField(j: Joint)
    requires NumbersWritten(j) && j.axis.Some?
    ensures JointField(JointUpTo(j, 1), "axis", AxisAttrs(j.axis.value)) == Some(Ok(JointUpTo(j, 2)))
  {
    AxisReadBack(j.axis.value);
  }

  lemma ReadOrigin(evs: seq<Event>, at: nat, next: nat, j: Joint)
    requires NumbersWritten(j) && next == at + |OriginEvents(j.origin)| <= |evs|
    requires j.origin.Some? ==> at < |evs| && evs[at] == Empty("origin", OriginAttrs(j.origin.value))
    ensures JointLoop(evs, at, JointUpTo(j, 0)) == JointLoop(evs, next, JointUpTo(j, 1))
  {
    if j.origin.Some? {
      OriginField(j);
      JointTagStep(evs, at, next, JointUpTo(j, 0), JointUpTo(j, 1), "origin", OriginAttrs(j.origin.value));
    } else {
      assert JointUpTo(j, 1) == JointUpTo(j, 0);
    }
  }

  lemma ReadAxis(evs: seq<Event>, at: nat, next: nat, j: Joint)
    requires NumbersWritten(j) && next == at + |AxisEvents(j.axis)| <= |evs|
    requires j.axis.Some? ==> at < |evs| && evs[at] == Empty("axis", AxisAttrs(j.axis.value))
    ensures JointLoop(evs, at, JointUpTo(j, 1)) == JointLoop(evs, next, JointUpTo(j, 2))
  {
    if j.axis.Some? {
      AxisField(j);
      JointTagStep(evs, at, next, JointUpTo(j, 1), JointUpTo(j, 2), "axis", AxisAttrs(j.axis.value));
    } else {
      assert JointUpTo(j, 2) == JointUpTo(j, 1);
    }
  }

  lemma ReadJointEnd(evs: seq<Event>, at: nat, end: nat, j: Joint)
    requires at < |evs| && evs[at] == End("joint") && end == at + 1
    ensures JointLoop(evs, at, JointUpTo(j, 2)) == Ok((StubJoint(j), end))
  {
    assert EventAt(evs, at) == End("joint");
  }

  /** The joint parser, run over a written joint's sub-tags, restores endpoints, origin and axis. */
  lemma ReadJointBody(evs: seq<Event>, pos: nat, end: nat, j: Joint)
    requires NumbersWritten(j)
    requires end == pos + |JointEvents(j)| <= |evs| && evs[pos..end] == JointEvents(j)
    ensures pos + 1 <= end && evs[pos] == Start("joint", JointAttrs(j))
    ensures JointLoop(evs, pos + 1, Joint(j.name, j.jointType, "", "", None, None, None, None, None))
         == Ok((StubJoint(j), end))
  {
    EventAtOffset(evs, pos, JointEvents(j), 0);
    JointHead(evs, pos, end, j);
    JointRest(evs, pos, end, j);
  }

  /** The joint parser reads a written joint's parent and child. */
  lemma JointHead(evs: seq<Event>, pos: nat, end: nat, j: Joint)
    requires end == pos + |JointEvents(j)| <= |evs| && evs[pos..end] == JointEvents(j)
    ensures JointLoop(evs, pos + 1, Joint(j.name, j.jointType, "", "", None, None, None, None, None))
         == JointLoop(evs, pos + 3, JointUpTo(j, 0))
  {
    JointEventsAt(evs, pos, j);
    ReadEndpoints(evs, pos + 1, pos + 3, j);
  }

  /** The joint parser reads the rest of a written joint, after its parent and child. */
  lemma JointRest(evs: seq<Event>, pos: nat, end: nat, j: Joint)
    requires NumbersWritten(j)
    requires end == pos + |JointEvents(j)| <= |evs| && evs[pos..end] == JointEvents(j)
    ensures JointLoop(evs, pos + 3, JointUpTo(j, 0)) == Ok((StubJoint(j), end))
  {
    JointEventsAt(evs, pos, j);
    var p: nat := pos + 3 + |OriginEvents(j.origin)|;
    var q: nat := p + |AxisEvents(j.axis)|;
    assert q + 1 == end;
    ReadJointEnd(evs, q, end, j);
    ReadAxis(evs, p, q, j);
    ReadOrigin(evs, pos + 3, p, j);
  }

  /** At robot level, an element that the robot's child parser reads moves the loop past it. */
  lemma RobotStartStep(evs: seq<Event>, pos: nat, end: nat, robot: Robot, robot': Robot, name: string, attrs: seq<Attr>)
    requires pos < |evs| && evs[pos] == Start(name, attrs) && end <= |evs|
    requires RobotChild(evs, pos + 1, robot, name, attrs) == Ok((robot', end))
    ensures RobotLoop(evs, pos, robot) == RobotLoop(evs, end, robot')
  {
    assert EventAt(evs, pos) == Start(name, attrs);
  }

  lemma JointChild(evs: seq<Event>, pos: nat, end: nat, robot: Robot, robot': Robot, j: Joint)
    requires pos + 1 <= end <= |evs|
    requires JointLoop(evs, pos + 1, Joint(j.name, j.jointType, "", "", None, None, None, None, None)) == Ok((StubJoint(j), end))
    requires robot' == robot.(joints := ReadBackJoint(robot.joints, j))
    ensures RobotChild(evs, pos + 1, robot, "joint", JointAttrs(j)) == Ok((robot', end))
  {
    var attrs := JointAttrs(j);
    assert GetOptionalAttribute(attrs, "type") == Some(j.jointType);
    assert ParseJoint(evs, pos + 1, attrs) == Ok((StubJoint(j), end));
  }

  /** A joint element whose body the joint loop reads moves the robot loop past it. */
  lemma JointStep(evs: seq<Event>, pos: nat, end: nat, robot: Robot, robot': Robot, j: Joint)
    requires pos + 1 <= end <= |evs| && evs[pos] == Start("joint", JointAttrs(j))
    requires JointLoop(evs, pos + 1, Joint(j.name, j.jointType, "", "", None, None, None, None, None)) == Ok((StubJoint(j), end))
    requires robot' == robot.(joints := ReadBackJoint(robot.joints, j))
    ensures RobotLoop(evs, pos, robot) == RobotLoop(evs, end, robot')
  {
    JointChild(evs, pos, end, robot, robot', j);
    RobotStartStep(evs, pos, end, robot, robot', "joint", JointAttrs(j));
  }

  lemma ReadJoint(evs: seq<Event>, pos: nat, end: nat, robot: Robot, robot': Robot, j: Joint)
    requires NumbersWritten(j)
    requires end == pos + |JointEvents(j)| <= |evs| && evs[pos..end] == JointEvents(j)
    requires robot' == robot.(joints := ReadBackJoint(robot.joints, j))
    ensures RobotLoop(evs, pos, robot) == RobotLoop(evs, end, robot')
  {
    ReadJointBody(evs, pos, end, j);
    JointStep(evs, pos, end, robot, robot', j);
  }

  /** The events written for `xs`, found at `pos`, are those of all but its last item, then those of the last item. */
  lemma SplitWritten<T>(evs: seq<Event>, pos: nat, mid: nat, end: nat, xs: seq<T>, write: T -> seq<Event>)
    requires xs != []
    requires end == pos + |Written(xs, write)| <= |evs| && evs[pos..end] == Written(xs, write)
    requires mid == pos + |Written(xs[..|xs| - 1], write)|
    ensures mid + |write(xs[|xs| - 1])| == end
    ensures evs[pos..mid] == Written(xs[..|xs| - 1], write)
    ensures evs[mid..end] == write(xs[|xs| - 1])
  {
    var w1, w2 := Written(xs[..|xs| - 1], write), write(xs[|xs| - 1]);
    assert Written(xs, write) == w1 + w2;
    SplitSlice(evs, pos, mid, end, w1, w2);
  }

  lemma {:induction false} ReadMaterials(evs: seq<Event>, pos: nat, end: nat, robot: Robot, robot': Robot, ms: seq<(string, Material)>)
    requires end == pos + |Written(ms, MaterialEntryEvents)| <= |evs| && evs[pos..end] == Written(ms, MaterialEntryEvents)
    requires robot' == robot.(materials := ReadBackMaterials(robot.materials, ms))
    ensures RobotLoop(evs, pos, robot) == RobotLoop(evs, end, robot')
    decreases |ms|
  {
    if ms == [] {
      assert robot' == robot;
    } else {
      var init := ms[..|ms| - 1];
      var mid: nat := pos + |Written(init, MaterialEntryEvents)|;
      var midRobot := robot.(materials := ReadBackMaterials(robot.materials, init));
      SplitWritten(evs, pos, mid, end, ms, MaterialEntryEvents);
      ReadMaterial(evs, mid, end, midRobot, robot', ms[|ms| - 1].1);
      ReadMaterials(evs, pos, mid, robot, midRobot, init);
    }
  }

  lemma {:induction false} ReadLinks(evs: seq<Event>, pos: nat, end: nat, robot: Robot, robot': Robot, ls: seq<(string, Link)>)
    requires end == pos + |Written(ls, LinkEntryEvents)| <= |evs| && evs[pos..end] == Written(ls, LinkEntryEvents)
    requires robot' == robot.(links := ReadBackLinks(robot.links, ls))
    ensures RobotLoop(evs, pos, robot) == RobotLoop(evs, end, robot')
    decreases |ls|
  {
    if ls == [] {
      assert robot' == robot;
    } else {
      var init := ls[..|ls| - 1];
      var mid: nat := pos + |Written(init, LinkEntryEvents)|;
      var midRobot := robot.(links := ReadBackLinks(robot.links, init));
      SplitWritten(evs, pos, mid, end, ls, LinkEntryEvents);
      ReadLink(evs, mid, end, midRobot, robot', ls[|ls| - 1].1);
      ReadLinks(evs, pos, mid, robot, midRobot, init);
    }
  }

  /** `NumbersWritten` for every joint of `js`, stated from the last one back. */
  predicate AllNumbersWritten(js: seq<(string, Joint)>) {
    js == [] || (NumbersWritten(js[|js| - 1].1) && AllNumbersWritten(js[..|js| - 1]))
  }

  lemma {:induction false} AllNumbersWrittenOf(js: seq<(string, Joint)>)
    requires forall i :: 0 <= i < |js| ==> NumbersWritten(js[i].1)
    ensures AllNumbersWritten(js)
    decreases |js|
  {
    if js != [] {
      var init := js[..|js| - 1];
      assert forall i :: 0 <= i < |init| ==> init[i] == js[i];
      AllNumbersWrittenOf(init);
    }
  }

  lemma {:induction false} ReadJoints(evs: seq<Event>, pos: nat, end: nat, robot: Robot, robot': Robot, js: seq<(string, Joint)>)
    requires AllNumbersWritten(js)
    requires end == pos + |Written(js, JointEntryEvents)| <= |evs| && evs[pos..end] == Written(js, JointEntryEvents)
    requires robot' == robot.(joints := ReadBackJoints(robot.joints, js))
    ensures RobotLoop(evs, pos, robot) == RobotLoop(evs, end, robot')
    decreases |js|
  {
    if js == [] {
      assert robot' == robot;
    } else {
      var init := js[..|js| - 1];
      var mid: nat := pos + |Written(init, JointEntryEvents)|;
      var midRobot := robot.(joints := ReadBackJoints(robot.joints, init));
      SplitWritten(evs, pos, mid, end, js, JointEntryEvents);
      ReadJoint(evs, mid, end, midRobot, robot', js[|js| - 1].1);
      ReadJoints(evs, pos, mid, robot, midRobot, init);
    }
  }

  /** Self-closing tags at robot level are passed over. */
  lemma {:induction false} SkipSelfClosing(evs: seq<Event>, pos: nat, end: nat, robot: Robot)
    requires pos <= end <= |evs|
    requires EmptyRun(evs, pos, end)
    ensures RobotLoop(evs, pos, robot) == RobotLoop(evs, end, robot)
    decreases end - pos
  {
    if pos < end {
      SkipSelfClosing(evs, pos + 1, end, robot);
      var e := evs[pos];
      RobotEmptyStep(evs, pos, robot, e.name, e.attrs);
    }
  }

  predicate EmptyRun(evs: seq<Event>, pos: nat, end: nat)
    requires pos <= end <= |evs|
    decreases end - pos
  {
    pos == end || (evs[pos].Empty? && EmptyRun(evs, pos + 1, end))
  }

  lemma {:induction false} EmptyRunOf(evs: seq<Event>, pos: nat, end: nat)
    requires pos <= end <= |evs|
    requires forall i :: pos <= i < end ==> evs[i].Empty?
    ensures EmptyRun(evs, pos, end)
    decreases end - pos
  {
    if pos < end {
      EmptyRunOf(evs, pos + 1, end);
    }
  }

  lemma {:induction false} WrittenSelfClosing<T>(xs: seq<T>, write: T -> seq<Event>)
    requires forall x :: x in xs ==> forall k :: 0 <= k < |write(x)| ==> write(x)[k].Empty?
    ensures forall k :: 0 <= k < |Written(xs, write)| ==> Written(xs, write)[k].Empty?
  {
    if xs != [] {
      WrittenSelfClosing(xs[..|xs| - 1], write);
      assert xs[|xs| - 1] in xs;
    }
  }

  /** Positions in a document made of an opening event, four runs of events and a closing event. */
  lemma {:induction false} PartsAt(evs: seq<Event>, s: Event, w1: seq<Event>, w2: seq<Event>, w3: seq<Event>, w4: seq<Event>, e: Event,
                                   a: nat, b: nat, c: nat, d: nat, f: nat)
    requires evs == [s] + w1 + w2 + w3 + w4 + [e]
    requires a == 1 && b == a + |w1| && c == b + |w2| && d == c + |w3| && f == d + |w4|
    ensures |evs| == f + 1 && evs[0] == s && evs[f] == e
    ensures evs[a..b] == w1 && evs[b..c] == w2 && evs[c..d] == w3 && evs[d..f] == w4
  {
  }

  /** Where each part of a regenerated document sits. */
  lemma {:induction false} RegeneratedLayout(r: Robot, a: nat, b: nat, c: nat, d: nat, f: nat)
    requires a == 1
    requires b == a + |Written(r.materials, MaterialEntryEvents)|
    requires c == b + |Written(r.links, LinkEntryEvents)|
    requires d == c + |Written(r.joints, JointEntryEvents)|
    requires f == d + |Written(r.gazebo, GazeboEvents)| + |Written(r.transmissions, TransmissionEvents)|
    ensures var evs := Regenerated(r);
      && |evs| == f + 1
      && evs[0] == Start("robot", NameAttr(r.name))
      && evs[a..b] == Written(r.materials, MaterialEntryEvents)
      && evs[b..c] == Written(r.links, LinkEntryEvents)
      && evs[c..d] == Written(r.joints, JointEntryEvents)
      && (forall i :: d <= i < f ==> evs[i].Empty?)
      && evs[f] == End("robot")
  {
    var evs := Regenerated(r);
    var wg, wt := Written(r.gazebo, GazeboEvents), Written(r.transmissions, TransmissionEvents);
    var w4 := wg + wt;
    assert evs == [Start("robot", NameAttr(r.name))] + Written(r.materials, MaterialEntryEvents)
      + Written(r.links, LinkEntryEvents) + Written(r.joints, JointEntryEvents) + w4 + [End("robot")];
    PartsAt(evs, Start("robot", NameAttr(r.name)), Written(r.materials, MaterialEntryEvents),
      Written(r.links, LinkEntryEvents), Written(r.joints, JointEntryEvents), w4, End("robot"), a, b, c, d, f);
    TailSelfClosing(evs, d, f, r);
  }

  /** The gazebo and transmission blocks are written as self-closing tags only. */
  lemma {:induction false} TailSelfClosing(evs: seq<Event>, d: nat, f: nat, r: Robot)
    requires d <= f <= |evs|
    requires evs[d..f] == Written(r.gazebo, GazeboEvents) + Written(r.transmissions, TransmissionEvents)
    ensures forall i :: d <= i < f ==> evs[i].Empty?
  {
    WrittenSelfClosing(r.gazebo, GazeboEvents);
    WrittenSelfClosing(r.transmissions, TransmissionEvents);
    forall i | d <= i < f ensures evs[i].Empty? {
      assert evs[i] == evs[d..f][i - d];
    }
  }

  /** The robot's closing tag ends the robot loop. */
  lemma RobotEnd(evs: seq<Event>, pos: nat, robot: Robot)
    requires pos < |evs| && evs[pos] == End("robot")
    ensures RobotLoop(evs, pos, robot) == Ok((robot, pos + 1))
  {
    assert EventAt(evs, pos) == End("robot");
  }

  /** The document loop at the end of input returns the robot it holds. */
  lemma {:induction false} DocumentEnd(evs: seq<Event>, end: nat, robot: Robot)
    requires end == |evs|
    ensures DocumentLoop(evs, end, Some(robot)) == Ok(robot)
  {
    assert EventAt(evs, end) == Eof;
  }

  /** The robot's `name` attribute, as the writer puts it, is found again. */
  lemma {:induction false} RobotName(evs: seq<Event>, end: nat, name: string, robot: Robot)
    requires 1 <= end <= |evs|
    requires RobotLoop(evs, 1, EmptyRobot(name)) == Ok((robot, end))
    ensures ParseRobot(evs, 1, NameAttr(name)) == Ok((robot, end))
  {
    assert GetRequiredAttribute(NameAttr(name), "name") == Ok(name);
  }

  /** A document that is one robot element, read to its end, parses to that robot. */
  lemma {:induction false} SingleRobot(evs: seq<Event>, name: string, robot: Robot)
    requires |evs| > 0 && evs[0] == Start("robot", NameAttr(name))
    requires RobotLoop(evs, 1, EmptyRobot(name)) == Ok((robot, |evs|))
    ensures ParseString(evs) == Ok(robot)
  {
    var end: nat := |evs|;
    RobotName(evs, end, name, robot);
    DocumentEnd(evs, end, robot);
    assert EventAt(evs, 0) == Start("robot", NameAttr(name));
  }

  /** The gazebo and transmission blocks and the closing tag end the robot loop with the robot read so far. */
  lemma {:induction false} RobotTail(evs: seq<Event>, d: nat, f: nat, robot: Robot)
    requires d <= f && f + 1 == |evs|
    requires forall i :: d <= i < f ==> evs[i].Empty?
    requires evs[f] == End("robot")
    ensures RobotLoop(evs, d, robot) == Ok((robot, |evs|))
  {
    EmptyRunOf(evs, d, f);
    SkipSelfClosing(evs, d, f, robot);
    RobotEnd(evs, f, robot);
  }

  /** The robot loop over a regenerated document reads the whole of it and finds the skeleton. */
  lemma RegeneratedBody(r: Robot)
    requires forall i :: 0 <= i < |r.joints| ==> NumbersWritten(r.joints[i].1)
    ensures RobotLoop(Regenerated(r), 1, EmptyRobot(r.name)) == Ok((ReadBack(r), |Regenerated(r)|))
  {
    var evs := Regenerated(r);
    var a: nat := 1;
    var b: nat := a + |Written(r.materials, MaterialEntryEvents)|;
    var c: nat := b + |Written(r.links, LinkEntryEvents)|;
    var d: nat := c + |Written(r.joints, JointEntryEvents)|;
    var f: nat := d + |Written(r.gazebo, GazeboEvents)| + |Written(r.transmissions, TransmissionEvents)|;
    RegeneratedLayout(r, a, b, c, d, f);
    var r0 := EmptyRobot(r.name);
    var r1 := r0.(materials := ReadBackMaterials([], r.materials));
    var r2 := r1.(links := ReadBackLinks([], r.links));
    var r3 := r2.(joints := ReadBackJoints([], r.joints));
    assert r3 == ReadBack(r);
    RobotTail(evs, d, f, r3);
    AllNumbersWrittenOf(r.joints);
    ReadJoints(evs, c, d, r2, r3, r.joints);
    var n: nat := |evs|;
    assert RobotLoop(evs, c, r2) == Ok((r3, n));
    ReadLinks(evs, b, c, r1, r2, r.links);
    assert RobotLoop(evs, b, r1) == Ok((r3, n));
    ReadMaterials(evs, a, b, r0, r1, r.materials);
  }

  /**
   * Reading back a regenerated document gives its skeleton: the robot's name, each link
   * with content (and nothing of that content), each material with a color or texture
   * (without them), each joint with its type, endpoints, origin and axis (and no limit,
   * dynamics or mimic), and no gazebo or transmission blocks.
   */
  lemma RegeneratedReadsBack(r: Robot)
    requires forall i :: 0 <= i < |r.joints| ==> NumbersWritten(r.joints[i].1)
    ensures ParseString(Regenerated(r)) == Ok(ReadBack(r))
  {
    var evs := Regenerated(r);
    assert evs[0] == Start("robot", NameAttr(r.name));
    RegeneratedBody(r);
    SingleRobot(evs, r.name, ReadBack(r));
  }
}
