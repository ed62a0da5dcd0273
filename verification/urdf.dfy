/**
 * The robot-description document model: a robot with three name-keyed, insertion-ordered
 * collections (links, joints, materials) and two plain lists (gazebo and transmission
 * blocks), plus the abstract XML event stream that the parser reads and the regenerator
 * writes.
 */
module Urdf {
  import opened Base
  import opened IndexMaps

  /** A floating-point value, kept as the token it was read from: numbers are opaque in this model. */
  datatype Num = Num(text: string)

  /** A `[f64; 3]`. */
  datatype Triple = Triple(x: Num, y: Num, z: Num)

  datatype Origin = Origin(xyz: Triple, rpy: Triple)
  datatype Axis = Axis(xyz: Triple)
  datatype Limit = Limit(lower: Option<Num>, upper: Option<Num>, effort: Option<Num>, velocity: Option<Num>)
  datatype Dynamics = Dynamics(damping: Option<Num>, friction: Option<Num>)
  datatype Mimic = Mimic(joint: string, multiplier: Option<Num>, offset: Option<Num>)
  datatype Inertia = Inertia(ixx: Num, ixy: Num, ixz: Num, iyy: Num, iyz: Num, izz: Num)
  datatype Inertial = Inertial(mass: Num, origin: Option<Origin>, inertia: Option<Inertia>)

  datatype GeometryShape =
    | Box(size: Triple)
    | Cylinder(radius: Num, length: Num)
    | Sphere(radius: Num)
    | Mesh(filename: string, scale: Option<Triple>)
  datatype Geometry = Geometry(shape: GeometryShape)

  datatype Color = Color(r: Num, g: Num, b: Num, a: Num)
  datatype Texture = Texture(filename: string)
  datatype MaterialRef = MaterialRef(name: string)

  datatype Visual = Visual(name: Option<string>, origin: Option<Origin>, geometry: Option<Geometry>, material: Option<MaterialRef>)
  datatype Collision = Collision(name: Option<string>, origin: Option<Origin>, geometry: Option<Geometry>)

  datatype Link = Link(name: string, inertial: Option<Inertial>, visual: seq<Visual>, collision: seq<Collision>)

  /** `parent` and `child` are references to link names, not ownership. */
  datatype Joint = Joint(
    name: string, jointType: string, parent: string, child: string,
    origin: Option<Origin>, axis: Option<Axis>, limit: Option<Limit>,
    dynamics: Option<Dynamics>, mimic: Option<Mimic>)

  datatype Material = Material(name: string, color: Option<Color>, texture: Option<Texture>)
  datatype GazeboElement = GazeboElement(reference: Option<string>, content: string)
  datatype TransmissionElement = TransmissionElement(name: string, content: string)

  datatype Robot = Robot(
    name: string,
    links: IndexMap<Link>,
    joints: IndexMap<Joint>,
    materials: IndexMap<Material>,
    gazebo: seq<GazeboElement>,
    transmissions: seq<TransmissionElement>)

  /** One attribute of a tag, as the tokenizer reports it. */
  datatype Attr = Attr(key: string, value: string)

  /**
   * The events of a tokenized document: an opening tag, a self-closing tag, a closing
   * tag, anything else the tokenizer reports (text, comments, declarations), and the
   * end of input.
   */
  datatype Event =
    | Start(name: string, attrs: seq<Attr>)
    | Empty(name: string, attrs: seq<Attr>)
    | End(name: string)
    | Text
    | Eof

  /** A parsed document: the robot and the last text form of it, as its event stream. */
  class Document {
    var robot: Robot
    var rawXml: seq<Event>

    constructor (robot: Robot, rawXml: seq<Event>)
      ensures this.robot == robot && this.rawXml == rawXml
    {
      this.robot := robot;
      this.rawXml := rawXml;
    }
  }

  /** A link with no visual, no collision and no inertial. */
  predicate IsEmptyLink(l: Link) { l.visual == [] && l.collision == [] && l.inertial.None? }
  predicate HasContent(l: Link) { !IsEmptyLink(l) }

  /** The names joints use as parent or child. */
  function ParentNames(joints: IndexMap<Joint>): set<string> {
    set i | 0 <= i < |joints| :: joints[i].1.parent
  }

  function ChildNames(joints: IndexMap<Joint>): set<string> {
    set i | 0 <= i < |joints| :: joints[i].1.child
  }

  /** The material names that some visual of some link refers to. */
  function UsedMaterials(links: seq<(string, Link)>): set<string> {
    set i, k | 0 <= i < |links| && 0 <= k < |links[i].1.visual| && links[i].1.visual[k].material.Some?
      :: links[i].1.visual[k].material.value.name
  }

  /** The material names the first `n` visuals refer to. */
  function VisualMaterials(visuals: seq<Visual>, n: nat): set<string>
    requires n <= |visuals|
  {
    set k | 0 <= k < n && visuals[k].material.Some? :: visuals[k].material.value.name
  }

  lemma UsedMaterialsStep(links: seq<(string, Link)>, i: nat)
    requires i < |links|
    ensures UsedMaterials(links[..i + 1])
         == UsedMaterials(links[..i]) + VisualMaterials(links[i].1.visual, |links[i].1.visual|)
  {
    var a := links[..i + 1];
    forall x | x in UsedMaterials(a)
      ensures x in UsedMaterials(links[..i]) + VisualMaterials(links[i].1.visual, |links[i].1.visual|)
    {
      var j, k :| 0 <= j < |a| && 0 <= k < |a[j].1.visual| && a[j].1.visual[k].material.Some?
        && x == a[j].1.visual[k].material.value.name;
      if j < i {
        assert links[..i][j] == a[j];
      }
    }
    forall x | x in UsedMaterials(links[..i])
      ensures x in UsedMaterials(a)
    {
      var j, k :| 0 <= j < i && 0 <= k < |links[..i][j].1.visual| && links[..i][j].1.visual[k].material.Some?
        && x == links[..i][j].1.visual[k].material.value.name;
      assert a[j] == links[..i][j];
    }
    forall x | x in VisualMaterials(links[i].1.visual, |links[i].1.visual|)
      ensures x in UsedMaterials(a)
    {
      var k :| 0 <= k < |links[i].1.visual| && links[i].1.visual[k].material.Some?
        && x == links[i].1.visual[k].material.value.name;
      assert a[i] == links[i];
    }
  }

  /** The loop that gathers every material name some visual refers to. */
  method CollectUsedMaterials(links: seq<(string, Link)>) returns (used: set<string>)
    ensures used == UsedMaterials(links)
  {
    used := {};
    for i := 0 to |links|
      invariant used == UsedMaterials(links[..i])
    {
      var visuals := links[i].1.visual;
      ghost var before := used;
      for k := 0 to |visuals|
        invariant used == before + VisualMaterials(visuals, k)
      {
        if visuals[k].material.Some? {
          used := used + {visuals[k].material.value.name};
        }
      }
      UsedMaterialsStep(links, i);
    }
    assert links[..|links|] == links;
  }

  /** Every entry of the three keyed collections is stored under its own name, as the parser inserts them. */
  predicate WellKeyed(r: Robot) {
    && (forall i :: 0 <= i < |r.links| ==> r.links[i].0 == r.links[i].1.name)
    && (forall i :: 0 <= i < |r.joints| ==> r.joints[i].0 == r.joints[i].1.name)
    && (forall i :: 0 <= i < |r.materials| ==> r.materials[i].0 == r.materials[i].1.name)
  }
}
