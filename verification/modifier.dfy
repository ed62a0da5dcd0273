/**
 * The mutator: removing and renaming elements of a parsed document (with the references
 * to a renamed link or material rewritten), the repairs `fix_document` chains together,
 * and the whitespace cleaner. Each edit is specified by a function on the robot value,
 * whose meaning is stated in its contract or in lemmas; the methods run the source's
 * loops on the document and are proved to produce that value.
 */
module Modifier {
  import opened Base
  import opened IndexMaps
  import opened Text
  import opened Urdf
  import opened Names
  import opened Processor
  import opened Regenerate

  // ---------------------------------------------------------------- remove_element

  /** `IndexMap::remove` on a key `k`: what remains, and the value that was under `k`. */
  ghost predicate RemovedKey<V>(before: IndexMap<V>, after: IndexMap<V>, k: string) {
    && k !in Keys(after)
    && (forall k' :: k' != k ==> Get(after, k') == Get(before, k'))
  }

  /** `remove_element` on the robot: the robot afterwards and whether the element existed. */
  function RemoveFrom(r: Robot, kind: string, name: string): (res: (Robot, bool))
    ensures res.1 <==> || (kind == "link" && name in Keys(r.links))
                       || (kind == "joint" && name in Keys(r.joints))
                       || (kind == "material" && name in Keys(r.materials))
    ensures !res.1 ==> res.0 == r
    ensures kind == "link" ==> RemovedKey(r.links, res.0.links, name) && res.0 == r.(links := res.0.links)
    ensures kind == "joint" ==> RemovedKey(r.joints, res.0.joints, name) && res.0 == r.(joints := res.0.joints)
    ensures kind == "material" ==> RemovedKey(r.materials, res.0.materials, name) && res.0 == r.(materials := res.0.materials)
  {
    if kind == "link" then (r.(links := SwapRemove(r.links, name)), name in Keys(r.links))
    else if kind == "joint" then (r.(joints := SwapRemove(r.joints, name)), name in Keys(r.joints))
    else if kind == "material" then (r.(materials := SwapRemove(r.materials, name)), name in Keys(r.materials))
    else (r, false)
  }

  /** `remove_element`: the document is regenerated only when something was removed. */
  method RemoveElement(doc: Document, kind: string, name: string) returns (removed: bool)
    modifies doc
    ensures (doc.robot, removed) == RemoveFrom(old(doc.robot), kind, name)
    ensures removed ==> doc.rawXml == Regenerated(doc.robot)
    ensures !removed ==> doc.rawXml == old(doc.rawXml)
  {
    removed := false;
    if kind == "link" {
      var value := Get(doc.robot.links, name);
      doc.robot := doc.robot.(links := SwapRemove(doc.robot.links, name));
      if value.Some? {
        RegenerateXml(doc);
        removed := true;
      }
    } else if kind == "joint" {
      var value := Get(doc.robot.joints, name);
      doc.robot := doc.robot.(joints := SwapRemove(doc.robot.joints, name));
      if value.Some? {
        RegenerateXml(doc);
        removed := true;
      }
    } else if kind == "material" {
      var value := Get(doc.robot.materials, name);
      doc.robot := doc.robot.(materials := SwapRemove(doc.robot.materials, name));
      if value.Some? {
        RegenerateXml(doc);
        removed := true;
      }
    }
  }

  // ---------------------------------------------------------------- rename_element

  /** A joint whose parent or child is `oldName` refers to `newName` instead. */
  function Retarget(j: Joint, oldName: string, newName: string): Joint {
    j.(parent := if j.parent == oldName then newName else j.parent,
       child := if j.child == oldName then newName else j.child)
  }

  function RetargetAll(joints: IndexMap<Joint>, oldName: string, newName: string): (js: IndexMap<Joint>)
    ensures Keys(js) == Keys(joints)
    ensures forall i :: 0 <= i < |joints| ==> js[i] == (joints[i].0, Retarget(joints[i].1, oldName, newName))
  {
    MapValues(joints, j => Retarget(j, oldName, newName))
  }

  /** A visual that refers to material `oldName` refers to `newName` instead. */
  function RenameRef(v: Visual, oldName: string, newName: string): Visual {
    if v.material.Some? && v.material.value.name == oldName then v.(material := Some(MaterialRef(newName))) else v
  }

  function RenameRefsOf(l: Link, oldName: string, newName: string): (l': Link)
    ensures |l'.visual| == |l.visual|
    ensures forall k :: 0 <= k < |l.visual| ==> l'.visual[k] == RenameRef(l.visual[k], oldName, newName)
    ensures l' == l.(visual := l'.visual)
  {
    l.(visual := seq(|l.visual|, k requires 0 <= k < |l.visual| => RenameRef(l.visual[k], oldName, newName)))
  }

  function RenameRefs(links: IndexMap<Link>, oldName: string, newName: string): (ls: IndexMap<Link>)
    ensures Keys(ls) == Keys(links)
    ensures forall i :: 0 <= i < |links| ==> ls[i] == (links[i].0, RenameRefsOf(links[i].1, oldName, newName))
  {
    MapValues(links, l => RenameRefsOf(l, oldName, newName))
  }

  /**
   * The entry for `oldName` is taken out (the last entry filling its slot) and its value,
   * renamed, goes in under `newName`: appended, or over the entry already under `newName`.
   */
  function Rekeyed<V>(m: IndexMap<V>, oldName: string, newName: string, v: V): IndexMap<V> {
    Insert(SwapRemove(m, oldName), newName, v)
  }

  /** `rename_element` on the robot: the robot afterwards and whether the element existed. */
  function RenameIn(r: Robot, kind: string, oldName: string, newName: string): (res: (Robot, bool))
    ensures res.1 <==> || (kind == "link" && oldName in Keys(r.links))
                       || (kind == "joint" && oldName in Keys(r.joints))
                       || (kind == "material" && oldName in Keys(r.materials))
    ensures !res.1 ==> res.0 == r
  {
    if kind == "link" && oldName in Keys(r.links) then
      var link := Get(r.links, oldName).value.(name := newName);
      (r.(links := Rekeyed(r.links, oldName, newName, link), joints := RetargetAll(r.joints, oldName, newName)), true)
    else if kind == "joint" && oldName in Keys(r.joints) then
      var joint := Get(r.joints, oldName).value.(name := newName);
      (r.(joints := Rekeyed(r.joints, oldName, newName, joint)), true)
    else if kind == "material" && oldName in Keys(r.materials) then
      var material := Get(r.materials, oldName).value.(name := newName);
      (r.(materials := Rekeyed(r.materials, oldName, newName, material), links := RenameRefs(r.links, oldName, newName)), true)
    else (r, false)
  }

  /** After a link rename the link is under its new name, with that name, and every other link is as it was. */
  lemma LinkRenameMovesLink(r: Robot, oldName: string, newName: string)
    requires oldName in Keys(r.links)
    ensures var r' := RenameIn(r, "link", oldName, newName).0;
      && (oldName != newName ==> oldName !in Keys(r'.links))
      && Get(r'.links, newName) == Some(Get(r.links, oldName).value.(name := newName))
      && (forall k :: k != oldName && k != newName ==> Get(r'.links, k) == Get(r.links, k))
      && r'.materials == r.materials && r'.gazebo == r.gazebo && r'.transmissions == r.transmissions
  {
  }

  /**
   * After a link rename every joint end that named the old link names the new one, no
   * joint refers to the old name any more, and nothing else about the joints changes.
   */
  lemma LinkRenameRetargets(r: Robot, oldName: string, newName: string)
    requires oldName in Keys(r.links) && oldName != newName
    ensures var r' := RenameIn(r, "link", oldName, newName).0;
      && Keys(r'.joints) == Keys(r.joints)
      && (forall i :: 0 <= i < |r.joints| ==>
            && (r.joints[i].1.parent == oldName ==> r'.joints[i].1.parent == newName)
            && (r.joints[i].1.child == oldName ==> r'.joints[i].1.child == newName)
            && r'.joints[i].1.parent != oldName && r'.joints[i].1.child != oldName
            && r'.joints[i].1 == r.joints[i].1.(parent := r'.joints[i].1.parent, child := r'.joints[i].1.child))
  {
  }

  /** A material rename rewrites exactly the visual references to the old name and leaves joints alone. */
  lemma MaterialRenameRefs(r: Robot, oldName: string, newName: string)
    requires oldName in Keys(r.materials)
    ensures var r' := RenameIn(r, "material", oldName, newName).0;
      && Keys(r'.links) == Keys(r.links) && r'.joints == r.joints
      && Get(r'.materials, newName) == Some(Get(r.materials, oldName).value.(name := newName))
      && (forall i, k :: 0 <= i < |r.links| && 0 <= k < |r.links[i].1.visual| ==>
            var v, v' := r.links[i].1.visual[k], r'.links[i].1.visual[k];
            && v'.material == (if v.material == Some(MaterialRef(oldName)) then Some(MaterialRef(newName)) else v.material)
            && v' == v.(material := v'.material))
  {
  }

  /** A joint rename changes only that joint's key and name: links, and every other joint, including its mimic reference, stay. */
  lemma JointRenameOnlyRekeys(r: Robot, oldName: string, newName: string)
    requires oldName in Keys(r.joints)
    ensures var r' := RenameIn(r, "joint", oldName, newName).0;
      && r'.links == r.links && r'.materials == r.materials
      && Get(r'.joints, newName) == Some(Get(r.joints, oldName).value.(name := newName))
      && (oldName != newName ==> oldName !in Keys(r'.joints))
      && (forall k :: k != oldName && k != newName ==> Get(r'.joints, k) == Get(r.joints, k))
  {
  }

  /** The loop over `joints.values_mut()` that retargets parent and child. */
  method RetargetJoints(joints: IndexMap<Joint>, oldName: string, newName: string) returns (js: IndexMap<Joint>)
    ensures js == RetargetAll(joints, oldName, newName)
  {
    var out := joints;
    for i := 0 to |joints|
      invariant |out| == |joints|
      invariant forall k :: 0 <= k < |joints| ==> out[k].0 == joints[k].0
      invariant forall k :: 0 <= k < i ==> out[k].1 == Retarget(joints[k].1, oldName, newName)
      invariant forall k :: i <= k < |joints| ==> out[k].1 == joints[k].1
    {
      var (name, joint) := out[i];
      if joint.parent == oldName {
        joint := joint.(parent := newName);
      }
      if joint.child == oldName {
        joint := joint.(child := newName);
      }
      out := out[i := (name, joint)];
    }
    js := out;
  }

  /** The nested loop over every link's visuals that rewrites material references. */
  method RenameMaterialRefs(links: IndexMap<Link>, oldName: string, newName: string) returns (ls: IndexMap<Link>)
    ensures ls == RenameRefs(links, oldName, newName)
  {
    var out := links;
    for i := 0 to |links|
      invariant |out| == |links|
      invariant forall k :: 0 <= k < |links| ==> out[k].0 == links[k].0
      invariant forall k :: 0 <= k < i ==> out[k].1 == RenameRefsOf(links[k].1, oldName, newName)
      invariant forall k :: i <= k < |links| ==> out[k].1 == links[k].1
    {
      var (name, link) := out[i];
      var visuals := link.visual;
      for k := 0 to |visuals|
        invariant |visuals| == |link.visual|
        invariant forall q :: 0 <= q < k ==> visuals[q] == RenameRef(link.visual[q], oldName, newName)
        invariant forall q :: k <= q < |visuals| ==> visuals[q] == link.visual[q]
      {
        if visuals[k].material.Some? && visuals[k].material.value.name == oldName {
          visuals := visuals[k := visuals[k].(material := Some(MaterialRef(newName)))];
        }
      }
      out := out[i := (name, link.(visual := visuals))];
    }
    ls := out;
  }

  /** The link branch of `rename_element` (and one step of `fix_naming_conventions`), without regeneration. */
  method RenameLink(r: Robot, oldName: string, newName: string) returns (r': Robot, found: bool)
    ensures (r', found) == RenameIn(r, "link", oldName, newName)
  {
    var removed := Get(r.links, oldName);
    var links := SwapRemove(r.links, oldName);
    r', found := r, false;
    if removed.Some? {
      var link := removed.value.(name := newName);
      var joints := RetargetJoints(r.joints, oldName, newName);
      r', found := r.(links := Insert(links, newName, link), joints := joints), true;
    }
  }

  /** The joint branch of `rename_element`, without regeneration. */
  method RenameJoint(r: Robot, oldName: string, newName: string) returns (r': Robot, found: bool)
    ensures (r', found) == RenameIn(r, "joint", oldName, newName)
  {
    var removed := Get(r.joints, oldName);
    var joints := SwapRemove(r.joints, oldName);
    r', found := r, false;
    if removed.Some? {
      var joint := removed.value.(name := newName);
      r', found := r.(joints := Insert(joints, newName, joint)), true;
    }
  }

  /** The material branch of `rename_element`, without regeneration. */
  method RenameMaterial(r: Robot, oldName: string, newName: string) returns (r': Robot, found: bool)
    ensures (r', found) == RenameIn(r, "material", oldName, newName)
  {
    var removed := Get(r.materials, oldName);
    var materials := SwapRemove(r.materials, oldName);
    r', found := r, false;
    if removed.Some? {
      var material := removed.value.(name := newName);
      var links := RenameMaterialRefs(r.links, oldName, newName);
      r', found := r.(materials := Insert(materials, newName, material), links := links), true;
    }
  }

  /** `rename_element`: the document is regenerated only when something was renamed. */
  method RenameElement(doc: Document, kind: string, oldName: string, newName: string) returns (renamed: bool)
    modifies doc
    ensures (doc.robot, renamed) == RenameIn(old(doc.robot), kind, oldName, newName)
    ensures renamed ==> doc.rawXml == Regenerated(doc.robot)
    ensures !renamed ==> doc.rawXml == old(doc.rawXml)
  {
    var r := doc.robot;
    var r' := r;
    renamed := false;
    if kind == "link" {
      r', renamed := RenameLink(r, oldName, newName);
    } else if kind == "joint" {
      r', renamed := RenameJoint(r, oldName, newName);
    } else if kind == "material" {
      r', renamed := RenameMaterial(r, oldName, newName);
    }
    if renamed {
      doc.robot := r';
      RegenerateXml(doc);
    }
  }

  // ---------------------------------------------------------------- removal loops

  /** The map after `IndexMap::remove` of each name in turn. */
  function RemoveAll<V>(m: IndexMap<V>, names: seq<string>): (r: IndexMap<V>)
    ensures forall k :: k in Keys(r) <==> k in Keys(m) && k !in names
    ensures forall k :: k !in names ==> Get(r, k) == Get(m, k)
  {
    if names == [] then m
    else
      var init := names[..|names| - 1];
      assert forall k :: k in init ==> k in names;
      SwapRemove(RemoveAll(m, init), names[|names| - 1])
  }

  /** Removing distinct names that are all present shrinks the map by one entry per name. */
  lemma {:induction false} RemoveAllSize<V>(m: IndexMap<V>, names: seq<string>)
    requires Distinct(names) && forall k :: k in names ==> k in Keys(m)
    ensures |RemoveAll(m, names)| == |m| - |names|
  {
    if names != [] {
      var init, last := names[..|names| - 1], names[|names| - 1];
      assert Distinct(init) by {
        forall i, j | 0 <= i < j < |init| ensures init[i] != init[j] { assert init[i] == names[i] && init[j] == names[j]; }
      }
      assert last !in init by {
        forall i | 0 <= i < |init| ensures init[i] != last { assert init[i] == names[i]; }
      }
      RemoveAllSize(m, init);
      assert last in Keys(RemoveAll(m, init));
    }
  }

  /** One change message per name, in order. */
  function Notes(prefix: string, names: seq<string>): (msgs: seq<string>)
    ensures |msgs| == |names|
    ensures forall i :: 0 <= i < |names| ==> msgs[i] == prefix + names[i]
  {
    if names == [] then [] else Notes(prefix, names[..|names| - 1]) + [prefix + names[|names| - 1]]
  }

  /** A loop that removes each listed name and records one message for it. */
  method RemoveListed<V>(m: IndexMap<V>, names: seq<string>, prefix: string) returns (m': IndexMap<V>, msgs: seq<string>)
    ensures m' == RemoveAll(m, names) && msgs == Notes(prefix, names)
  {
    m', msgs := m, [];
    for i := 0 to |names|
      invariant m' == RemoveAll(m, names[..i]) && msgs == Notes(prefix, names[..i])
    {
      assert names[..i + 1][..i] == names[..i];
      m' := SwapRemove(m', names[i]);
      msgs := msgs + [prefix + names[i]];
    }
    assert names[..|names|] == names;
  }

  // ---------------------------------------------------------------- remove_duplicates

  /** The names that occur again after an earlier occurrence, in order: what `find_duplicate_*` collects. */
  function Repeated(names: seq<string>): seq<string> {
    if names == [] then []
    else
      var init, last := names[..|names| - 1], names[|names| - 1];
      Repeated(init) + (if last in init then [last] else [])
  }

  /** Nothing is collected exactly when no name occurs twice; index-map keys never do. */
  lemma {:induction false} RepeatedEmptyIffDistinct(names: seq<string>)
    ensures Repeated(names) == [] <==> Distinct(names)
  {
    if names != [] {
      var init, last := names[..|names| - 1], names[|names| - 1];
      RepeatedEmptyIffDistinct(init);
      if Distinct(names) {
        assert Distinct(init) by {
          forall i, j | 0 <= i < j < |init| ensures init[i] != init[j] { assert init[i] == names[i] && init[j] == names[j]; }
        }
        assert last !in init by {
          forall i | 0 <= i < |init| ensures init[i] != last { assert init[i] == names[i]; }
        }
      } else if Repeated(names) == [] {
        assert Distinct(init) && last !in init;
        forall i, j | 0 <= i < j < |names| ensures names[i] != names[j] {
          if j < |names| - 1 { assert names[i] == init[i] && names[j] == init[j]; }
          else { assert names[i] == init[i]; }
        }
        assert false;
      }
    }
  }

  /** `find_duplicate_links` (and its joint and material twins): the loop with a `seen` set. */
  method FindDuplicateKeys(names: seq<string>) returns (duplicates: seq<string>)
    ensures duplicates == Repeated(names)
  {
    var seen: set<string> := {};
    duplicates := [];
    for i := 0 to |names|
      invariant seen == set k | 0 <= k < i :: names[k]
      invariant duplicates == Repeated(names[..i])
    {
      var prefix := names[..i + 1];
      assert prefix[..i] == names[..i];
      assert names[i] in names[..i] <==> names[i] in seen by {
        if names[i] in seen {
          var k :| 0 <= k < i && names[k] == names[i];
          assert names[..i][k] == names[i];
        }
      }
      if names[i] in seen {
        duplicates := duplicates + [names[i]];
      } else {
        seen := seen + {names[i]};
      }
    }
    assert names[..|names|] == names;
  }

  /** `remove_duplicates`: it removes nothing and reports nothing, because index-map keys are distinct. */
  method RemoveDuplicates(doc: Document) returns (changes: seq<string>)
    modifies doc
    ensures changes == [] && doc.robot == old(doc.robot) && doc.rawXml == old(doc.rawXml)
  {
    var r := doc.robot;
    var duplicateLinks := FindDuplicateKeys(Keys(r.links));
    KeysDistinct(r.links);
    RepeatedEmptyIffDistinct(Keys(r.links));
    var links, linkNotes := RemoveListed(r.links, duplicateLinks, "Removed duplicate link: ");
    r := r.(links := links);
    var duplicateJoints := FindDuplicateKeys(Keys(r.joints));
    KeysDistinct(r.joints);
    RepeatedEmptyIffDistinct(Keys(r.joints));
    var joints, jointNotes := RemoveListed(r.joints, duplicateJoints, "Removed duplicate joint: ");
    r := r.(joints := joints);
    var duplicateMaterials := FindDuplicateKeys(Keys(r.materials));
    KeysDistinct(r.materials);
    RepeatedEmptyIffDistinct(Keys(r.materials));
    var materials, materialNotes := RemoveListed(r.materials, duplicateMaterials, "Removed duplicate material: ");
    r := r.(materials := materials);
    doc.robot := r;
    changes := linkNotes + jointNotes + materialNotes;
  }

  // ---------------------------------------------------------------- remove_unused_materials

  const UnusedNote := "Removed unused material: "

  /** `remove_unused_materials` on the robot: the robot afterwards and the change messages. */
  function WithoutUnusedMaterials(r: Robot): (res: (Robot, seq<string>))
    ensures res.0 == r.(materials := res.0.materials)
    ensures forall k :: k in Keys(res.0.materials) ==> k in UsedMaterials(r.links)
    ensures forall k :: k in Keys(r.materials) && k in UsedMaterials(r.links) ==> Get(res.0.materials, k) == Get(r.materials, k)
    ensures |res.1| == |r.materials| - |res.0.materials|
  {
    var unused := Without(Keys(r.materials), UsedMaterials(r.links));
    KeysDistinct(r.materials);
    RemoveAllSize(r.materials, unused);
    (r.(materials := RemoveAll(r.materials, unused)), Notes(UnusedNote, unused))
  }

  /**
   * The messages name, in material order, exactly the materials that were removed, one
   * message each.
   */
  lemma UnusedRemovalNotes(r: Robot)
    ensures var (r', msgs) := WithoutUnusedMaterials(r);
      && (forall i :: 0 <= i < |msgs| ==> exists k :: k in Keys(r.materials) && k !in Keys(r'.materials) && msgs[i] == UnusedNote + k)
      && (forall k :: k in Keys(r.materials) && k !in Keys(r'.materials) ==> UnusedNote + k in msgs)
  {
    var unused := Without(Keys(r.materials), UsedMaterials(r.links));
    var (r', msgs) := WithoutUnusedMaterials(r);
    forall i | 0 <= i < |msgs|
      ensures exists k :: k in Keys(r.materials) && k !in Keys(r'.materials) && msgs[i] == UnusedNote + k
    {
      assert unused[i] in unused;
    }
    forall k | k in Keys(r.materials) && k !in Keys(r'.materials) ensures UnusedNote + k in msgs {
      var i :| 0 <= i < |unused| && unused[i] == k;
      assert msgs[i] == UnusedNote + k;
    }
  }

  /** After the removal the linter finds no unused material. */
  lemma NoUnusedMaterialAfterRemoval(r: Robot)
    ensures var r' := WithoutUnusedMaterials(r).0;
      UnusedMaterialIssues(r'.materials, UsedMaterials(r'.links)) == []
  {
    var r' := WithoutUnusedMaterials(r).0;
    AllUsedNoIssues(r'.materials, UsedMaterials(r'.links));
  }

  lemma {:induction false} AllUsedNoIssues(materials: seq<(string, Material)>, used: set<string>)
    requires forall i :: 0 <= i < |materials| ==> materials[i].0 in used
    ensures UnusedMaterialIssues(materials, used) == []
  {
    if materials != [] {
      AllUsedNoIssues(materials[..|materials| - 1], used);
    }
  }

  /** `remove_unused_materials`: gather the used names, pick the unused keys, remove each. */
  method RemoveUnusedMaterials(doc: Document) returns (changes: seq<string>)
    modifies doc
    ensures (doc.robot, changes) == WithoutUnusedMaterials(old(doc.robot))
    ensures doc.rawXml == old(doc.rawXml)
  {
    var used := CollectUsedMaterials(doc.robot.links);
    var unused := Without(Keys(doc.robot.materials), used);
    var materials;
    materials, changes := RemoveListed(doc.robot.materials, unused, UnusedNote);
    doc.robot := doc.robot.(materials := materials);
  }

  // ---------------------------------------------------------------- add_missing_properties

  const MissingInertialNote := "Would add default inertial properties to link: "

  /** One message per link that has a visual or a collision but no inertial, in link order. */
  function MissingInertialNotes(links: seq<(string, Link)>): seq<string> {
    if links == [] then []
    else
      var last := links[|links| - 1];
      MissingInertialNotes(links[..|links| - 1]) + (if LacksInertial(last) then [MissingInertialNote + last.0] else [])
  }

  /** The messages match the linter's physics warnings one for one, naming the same links. */
  lemma {:induction false} MissingInertialMatchesLint(links: seq<(string, Link)>)
    ensures |MissingInertialNotes(links)| == |PhysicsIssues(links)|
    ensures forall i :: 0 <= i < |PhysicsIssues(links)| ==>
      PhysicsIssues(links)[i].element.Some? && MissingInertialNotes(links)[i] == MissingInertialNote + PhysicsIssues(links)[i].element.value
  {
    if links != [] {
      var init, last := links[..|links| - 1], links[|links| - 1];
      MissingInertialMatchesLint(init);
      var n, p := MissingInertialNotes(links), PhysicsIssues(links);
      forall i | 0 <= i < |p| ensures p[i].element.Some? && n[i] == MissingInertialNote + p[i].element.value {
        if i < |PhysicsIssues(init)| {
          assert n[i] == MissingInertialNotes(init)[i] && p[i] == PhysicsIssues(init)[i];
        } else {
          assert n[i] == MissingInertialNote + last.0;
        }
      }
    }
  }

  /** `add_missing_properties`: it only reports; the robot is left as it is. */
  method AddMissingProperties(r: Robot) returns (changes: seq<string>)
    ensures changes == MissingInertialNotes(r.links)
  {
    var links := r.links;
    changes := [];
    for i := 0 to |links|
      invariant changes == MissingInertialNotes(links[..i])
    {
      var (name, link) := links[i];
      assert links[..i + 1][..i] == links[..i];
      if link.inertial.None? && (link.visual != [] || link.collision != []) {
        changes := changes + [MissingInertialNote + name];
      }
    }
    assert links[..|links|] == links;
  }

  // ---------------------------------------------------------------- fix_naming_conventions

  function LinkFixNote(oldName: string, newName: string): string {
    "Fixed link name: " + oldName + " -> " + newName
  }

  function JointFixNote(oldName: string, newName: string): string {
    "Fixed joint name: " + oldName + " -> " + newName
  }

  /**
   * The link loop of `fix_naming_conventions`, over the names in `bad` in order, renaming
   * each with `fix`: `FixedName` is the program's renaming, `FixedNameCorrected` the
   * intended one.
   */
  function FixLinkNames(r: Robot, bad: seq<string>, fix: string -> string): (res: (Robot, seq<string>))
    ensures res.0 == r.(links := res.0.links, joints := res.0.joints)
    ensures Keys(res.0.joints) == Keys(r.joints)
  {
    if bad == [] then (r, [])
    else
      var (r0, msgs) := FixLinkNames(r, bad[..|bad| - 1], fix);
      var oldName := bad[|bad| - 1];
      var newName := fix(oldName);
      if newName != oldName && oldName in Keys(r0.links) then
        (RenameIn(r0, "link", oldName, newName).0, msgs + [LinkFixNote(oldName, newName)])
      else (r0, msgs)
  }

  /** The joint loop of `fix_naming_conventions`, over the names in `bad` in order. */
  function FixJointNames(r: Robot, bad: seq<string>, fix: string -> string): (res: (Robot, seq<string>))
    ensures res.0 == r.(joints := res.0.joints)
  {
    if bad == [] then (r, [])
    else
      var (r0, msgs) := FixJointNames(r, bad[..|bad| - 1], fix);
      var oldName := bad[|bad| - 1];
      var newName := fix(oldName);
      if newName != oldName && oldName in Keys(r0.joints) then
        (RenameIn(r0, "joint", oldName, newName).0, msgs + [JointFixNote(oldName, newName)])
      else (r0, msgs)
  }

  /** Both loops with the renaming `fix`: first the links with invalid names, then the joints. */
  function FixNamingWith(r: Robot, fix: string -> string): (Robot, seq<string>) {
    var (r1, m1) := FixLinkNames(r, Filter(Keys(r.links), IsInvalidName), fix);
    var (r2, m2) := FixJointNames(r1, Filter(Keys(r1.joints), IsInvalidName), fix);
    (r2, m1 + m2)
  }

  /** `fix_naming_conventions` as written, renaming with `fix_name`. */
  function FixNaming(r: Robot): (Robot, seq<string>) {
    FixNamingWith(r, FixedName)
  }

  /** The evidently intended `fix_naming_conventions`, whose renaming always yields a valid name. */
  function FixNamingCorrected(r: Robot): (Robot, seq<string>) {
    FixNamingWith(r, FixedNameCorrected)
  }

  /** The new names `fix` gives the names in `bad`, in order. */
  function FixedNames(bad: seq<string>, fix: string -> string): (r: seq<string>)
    ensures |r| == |bad| && forall i :: 0 <= i < |bad| ==> r[i] == fix(bad[i])
  {
    if bad == [] then [] else FixedNames(bad[..|bad| - 1], fix) + [fix(bad[|bad| - 1])]
  }

  /** Re-keying `oldName` as `newName` takes out the one key and adds the other. */
  lemma RekeyedKeys<V>(m: IndexMap<V>, oldName: string, newName: string, v: V)
    requires oldName in Keys(m)
    ensures forall k :: k in Keys(Rekeyed(m, oldName, newName, v)) <==> (k in Keys(m) && k != oldName) || k == newName
  {
  }

  /** One step of the link loop takes out at most `oldName` and adds at most its new name. */
  lemma FixLinkNamesStep(r: Robot, init: seq<string>, oldName: string, fix: string -> string)
    ensures var r0, r' := FixLinkNames(r, init, fix).0, FixLinkNames(r, init + [oldName], fix).0;
      && (forall k :: k in Keys(r'.links) ==> k == fix(oldName) || (k in Keys(r0.links) && k != oldName))
      && (forall k :: k in Keys(r0.links) && k != oldName ==> k in Keys(r'.links))
  {
    var bad := init + [oldName];
    assert bad[..|bad| - 1] == init;
    var r0, r' := FixLinkNames(r, init, fix).0, FixLinkNames(r, bad, fix).0;
    var newName := fix(oldName);
    if newName != oldName && oldName in Keys(r0.links) {
      var link := Get(r0.links, oldName).value.(name := newName);
      assert r'.links == Rekeyed(r0.links, oldName, newName, link);
      RekeyedKeys(r0.links, oldName, newName, link);
    }
  }

  /**
   * Every link key afterwards is the new name of a listed name or an original that was not
   * listed; every original not listed stays.
   */
  lemma {:induction false} FixLinkNamesKeys(r: Robot, bad: seq<string>, fix: string -> string)
    ensures var r' := FixLinkNames(r, bad, fix).0;
      && (forall k :: k in Keys(r'.links) ==> k in FixedNames(bad, fix) || (k in Keys(r.links) && k !in bad))
      && (forall k :: k in Keys(r.links) && k !in bad ==> k in Keys(r'.links))
  {
    if bad != [] {
      var init, oldName := bad[..|bad| - 1], bad[|bad| - 1];
      assert bad == init + [oldName];
      var fixed := FixedNames(bad, fix);
      assert fixed == FixedNames(init, fix) + [fix(oldName)];
      FixLinkNamesKeys(r, init, fix);
      FixLinkNamesStep(r, init, oldName, fix);
      var r0, r' := FixLinkNames(r, init, fix).0, FixLinkNames(r, bad, fix).0;
      forall k | k in Keys(r'.links) ensures k in fixed || (k in Keys(r.links) && k !in bad) {
        if k != fix(oldName) {
          assert k in Keys(r0.links) && k != oldName;
        }
      }
      forall k | k in Keys(r.links) && k !in bad ensures k in Keys(r'.links) {
        assert k !in init && k != oldName;
        assert k in Keys(r0.links);
      }
    }
  }

  /** One step of the joint loop takes out at most `oldName` and adds at most its new name. */
  lemma FixJointNamesStep(r: Robot, init: seq<string>, oldName: string, fix: string -> string)
    ensures var r0, r' := FixJointNames(r, init, fix).0, FixJointNames(r, init + [oldName], fix).0;
      && (forall k :: k in Keys(r'.joints) ==> k == fix(oldName) || (k in Keys(r0.joints) && k != oldName))
      && (forall k :: k in Keys(r0.joints) && k != oldName ==> k in Keys(r'.joints))
  {
    var bad := init + [oldName];
    assert bad[..|bad| - 1] == init;
    var r0, r' := FixJointNames(r, init, fix).0, FixJointNames(r, bad, fix).0;
    var newName := fix(oldName);
    if newName != oldName && oldName in Keys(r0.joints) {
      var joint := Get(r0.joints, oldName).value.(name := newName);
      assert r'.joints == Rekeyed(r0.joints, oldName, newName, joint);
      RekeyedKeys(r0.joints, oldName, newName, joint);
    }
  }

  /** The same for the joint keys. */
  lemma {:induction false} FixJointNamesKeys(r: Robot, bad: seq<string>, fix: string -> string)
    ensures var r' := FixJointNames(r, bad, fix).0;
      && (forall k :: k in Keys(r'.joints) ==> k in FixedNames(bad, fix) || (k in Keys(r.joints) && k !in bad))
      && (forall k :: k in Keys(r.joints) && k !in bad ==> k in Keys(r'.joints))
  {
    if bad != [] {
      var init, oldName := bad[..|bad| - 1], bad[|bad| - 1];
      assert bad == init + [oldName];
      var fixed := FixedNames(bad, fix);
      assert fixed == FixedNames(init, fix) + [fix(oldName)];
      FixJointNamesKeys(r, init, fix);
      FixJointNamesStep(r, init, oldName, fix);
      var r0, r' := FixJointNames(r, init, fix).0, FixJointNames(r, bad, fix).0;
      forall k | k in Keys(r'.joints) ensures k in fixed || (k in Keys(r.joints) && k !in bad) {
        if k != fix(oldName) {
          assert k in Keys(r0.joints) && k != oldName;
        }
      }
      forall k | k in Keys(r.joints) && k !in bad ensures k in Keys(r'.joints) {
        assert k !in init && k != oldName;
        assert k in Keys(r0.joints);
      }
    }
  }

  /**
   * A joint end after the link loop: each listed name in turn, when the end names it at that
   * point, replaces the end by its new name. A new name that is itself listed further on is
   * renamed again.
   */
  function FixedEnd(name: string, bad: seq<string>, fix: string -> string): string {
    if bad == [] then name
    else
      var e := FixedEnd(name, bad[..|bad| - 1], fix);
      if e == bad[|bad| - 1] then fix(e) else e
  }

  function FixEnds(j: Joint, bad: seq<string>, fix: string -> string): Joint {
    j.(parent := FixedEnd(j.parent, bad, fix), child := FixedEnd(j.child, bad, fix))
  }

  /** A step of the link loop that renames: the joints are retargeted and one message is added. */
  lemma FixLinkNamesRenameStep(r: Robot, init: seq<string>, oldName: string, fix: string -> string)
    requires fix(oldName) != oldName && oldName in Keys(FixLinkNames(r, init, fix).0.links)
    ensures var (r0, m0) := FixLinkNames(r, init, fix);
      var (r', msgs) := FixLinkNames(r, init + [oldName], fix);
      && r'.joints == RetargetAll(r0.joints, oldName, fix(oldName))
      && msgs == m0 + [LinkFixNote(oldName, fix(oldName))]
  {
    var bad := init + [oldName];
    assert bad[..|bad| - 1] == init;
  }

  /** Retargeting `oldName` after the listed names were fixed fixes the list extended by `oldName`. */
  lemma RetargetFixedEnds(js0: IndexMap<Joint>, orig: IndexMap<Joint>, init: seq<string>, oldName: string, fix: string -> string)
    requires |js0| == |orig| && forall i :: 0 <= i < |orig| ==> js0[i] == (orig[i].0, FixEnds(orig[i].1, init, fix))
    ensures var js := RetargetAll(js0, oldName, fix(oldName));
      forall i :: 0 <= i < |orig| ==> js[i] == (orig[i].0, FixEnds(orig[i].1, init + [oldName], fix))
  {
    var bad := init + [oldName];
    assert bad[..|bad| - 1] == init;
  }

  /**
   * When the listed names are distinct link keys that `fix` changes, the link loop renames
   * each of them, reports each once, and every joint end is carried along the renamings;
   * the joints are otherwise untouched.
   */
  lemma {:induction false} FixLinkNamesPropagates(r: Robot, bad: seq<string>, fix: string -> string)
    requires Distinct(bad)
    requires forall k :: k in bad ==> k in Keys(r.links) && fix(k) != k
    ensures var (r', msgs) := FixLinkNames(r, bad, fix);
      && |r'.joints| == |r.joints|
      && (forall i :: 0 <= i < |r.joints| ==> r'.joints[i] == (r.joints[i].0, FixEnds(r.joints[i].1, bad, fix)))
      && |msgs| == |bad|
      && (forall i :: 0 <= i < |bad| ==> msgs[i] == LinkFixNote(bad[i], fix(bad[i])))
  {
    if bad != [] {
      var init, oldName := bad[..|bad| - 1], bad[|bad| - 1];
      assert bad == init + [oldName];
      DistinctInit(bad);
      assert forall k :: k in init ==> k in bad;
      FixLinkNamesPropagates(r, init, fix);
      var (r0, m0) := FixLinkNames(r, init, fix);
      assert oldName in Keys(r0.links) by { FixLinkNamesKeys(r, init, fix); }
      FixLinkNamesRenameStep(r, init, oldName, fix);
      RetargetFixedEnds(r0.joints, r.joints, init, oldName, fix);
      var msgs := FixLinkNames(r, bad, fix).1;
      assert msgs == m0 + [LinkFixNote(oldName, fix(oldName))];
      forall i | 0 <= i < |bad| ensures msgs[i] == LinkFixNote(bad[i], fix(bad[i])) {
        if i < |init| {
          assert msgs[i] == m0[i] && bad[i] == init[i];
        }
      }
    }
  }

  /** Dropping the last name of a list without repeats leaves a list without repeats that lacks it. */
  lemma DistinctInit(bad: seq<string>)
    requires bad != [] && Distinct(bad)
    ensures Distinct(bad[..|bad| - 1]) && bad[|bad| - 1] !in bad[..|bad| - 1]
  {
    var init := bad[..|bad| - 1];
    forall i, j | 0 <= i < j < |init| ensures init[i] != init[j] { assert init[i] == bad[i] && init[j] == bad[j]; }
    forall i | 0 <= i < |init| ensures init[i] != bad[|bad| - 1] { assert init[i] == bad[i]; }
  }

  /**
   * The link loop as the program runs it: every link with an invalid name is renamed by
   * `fix_name` and reported, in key order, and the joints follow the renamings.
   */
  lemma LinkLoopPropagates(r: Robot)
    ensures var bad := Filter(Keys(r.links), IsInvalidName);
      var (r', msgs) := FixLinkNames(r, bad, FixedName);
      && |r'.joints| == |r.joints|
      && (forall i :: 0 <= i < |r.joints| ==> r'.joints[i] == (r.joints[i].0, FixEnds(r.joints[i].1, bad, FixedName)))
      && |msgs| == |bad|
      && (forall i :: 0 <= i < |bad| ==> msgs[i] == LinkFixNote(bad[i], FixedName(bad[i])))
  {
    KeysDistinct(r.links);
    FixLinkNamesPropagates(r, Filter(Keys(r.links), IsInvalidName), FixedName);
  }

  /** A listed name whose new name is not listed ends up as that new name. */
  lemma {:induction false} FixedEndOfListed(name: string, bad: seq<string>, fix: string -> string)
    requires Distinct(bad) && name in bad
    requires forall k :: k in bad ==> fix(k) !in bad
    ensures FixedEnd(name, bad, fix) == fix(name)
  {
    var init, last := bad[..|bad| - 1], bad[|bad| - 1];
    assert bad == init + [last];
    assert forall k :: k in init ==> k in bad;
    assert Distinct(init) by {
      forall i, j | 0 <= i < j < |init| ensures init[i] != init[j] { assert init[i] == bad[i] && init[j] == bad[j]; }
    }
    if name == last {
      assert name !in init by {
        forall i | 0 <= i < |init| ensures init[i] != name { assert init[i] == bad[i]; }
      }
      FixedEndOfUnlisted(name, init, fix);
    } else {
      FixedEndOfListed(name, init, fix);
    }
  }

  /** A name that is not listed is left alone. */
  lemma {:induction false} FixedEndOfUnlisted(name: string, bad: seq<string>, fix: string -> string)
    requires name !in bad
    ensures FixedEnd(name, bad, fix) == name
  {
    if bad != [] {
      var init := bad[..|bad| - 1];
      assert forall k :: k in init ==> k in bad;
      FixedEndOfUnlisted(name, init, fix);
    }
  }

  /** A name made of name characters and non-empty, but led by a digit: invalid all the same. */
  predicate DigitLed(k: string) {
    k != [] && AllNameChars(k) && IsAsciiDigit(k[0])
  }

  /** Every key afterwards is valid or a digit-led new name of a listed name. */
  lemma KeysAfterFixedName(keys: seq<string>, orig: seq<string>, bad: seq<string>)
    requires bad == Filter(orig, IsInvalidName)
    requires forall k :: k in keys ==> k in FixedNames(bad, FixedName) || (k in orig && k !in bad)
    ensures forall k :: k in keys ==> IsValidName(k) || (DigitLed(k) && exists b :: b in bad && k == FixedName(b))
  {
    forall k | k in keys && !IsValidName(k)
      ensures DigitLed(k) && exists b :: b in bad && k == FixedName(b)
    {
      var i :| 0 <= i < |bad| && FixedNames(bad, FixedName)[i] == k;
      assert bad[i] in bad && k == FixedName(bad[i]);
    }
  }

  /**
   * `fix_naming_conventions` as written: every link and joint key afterwards is valid, or is
   * the digit-led new name `fix_name` gave an invalid original; a name that was already
   * valid is still there, and the materials are untouched.
   */
  lemma FixNamingMeaning(r: Robot)
    ensures var r' := FixNaming(r).0;
      && (forall k :: k in Keys(r'.links) ==>
            IsValidName(k) || (DigitLed(k) && exists b :: b in Keys(r.links) && !IsValidName(b) && k == FixedName(b)))
      && (forall k :: k in Keys(r'.joints) ==>
            IsValidName(k) || (DigitLed(k) && exists b :: b in Keys(r.joints) && !IsValidName(b) && k == FixedName(b)))
      && (forall k :: k in Keys(r.links) && IsValidName(k) ==> k in Keys(r'.links))
      && (forall k :: k in Keys(r.joints) && IsValidName(k) ==> k in Keys(r'.joints))
      && r'.materials == r.materials
  {
    var badLinks := Filter(Keys(r.links), IsInvalidName);
    FixLinkNamesKeys(r, badLinks, FixedName);
    var r1 := FixLinkNames(r, badLinks, FixedName).0;
    var badJoints := Filter(Keys(r1.joints), IsInvalidName);
    FixJointNamesKeys(r1, badJoints, FixedName);
    var r' := FixJointNames(r1, badJoints, FixedName).0;
    KeysAfterFixedName(Keys(r1.links), Keys(r.links), badLinks);
    KeysAfterFixedName(Keys(r'.joints), Keys(r1.joints), badJoints);
  }

  /** As written, fixing a link named `-1` leaves a link named `1`, which the linter still reports. */
  lemma FixNamingLeavesInvalid()
    ensures var r := Robot("r", [("-1", Link("-1", None, [], []))], [], [], [], []);
      var r' := FixNaming(r).0;
      && r'.links == [("1", Link("1", None, [], []))]
      && NamingIssues("Link", r'.links) == [NamingIssue("Link", "1")]
  {
    var r := Robot("r", [("-1", Link("-1", None, [], []))], [], [], [], []);
    MinusOneLinkRenamed();
    var r1 := FixLinkNames(r, ["-1"], FixedName).0;
    var links' := [("1", Link("1", None, [], []))];
    assert r1 == r.(links := links');
    assert Keys(r.links) == ["-1"];
    MinusOneListed();
    assert FixJointNames(r1, [], FixedName).0 == r1;
    assert FixNaming(r).0 == r1;
    LinkOneReported();
  }

  /** The name `-1` is the one the link loop is given. */
  lemma MinusOneListed()
    ensures Filter(["-1"], IsInvalidName) == ["-1"]
  {
    assert !IsValidName("-1");
    assert ["-1"][..0] == [];
  }

  /** The linter reports a link keyed `1`. */
  lemma LinkOneReported()
    ensures NamingIssues("Link", [("1", Link("1", None, [], []))]) == [NamingIssue("Link", "1")]
  {
    var m := [("1", Link("1", None, [], []))];
    FixedNameCanBeInvalid();
    assert m[..0] == [];
  }

  /** The link loop on the robot of `FixNamingLeavesInvalid`: `-1` becomes `1`. */
  lemma MinusOneLinkRenamed()
    ensures var r := Robot("r", [("-1", Link("-1", None, [], []))], [], [], [], []);
      FixLinkNames(r, ["-1"], FixedName).0 == r.(links := [("1", Link("1", None, [], []))])
  {
    var r := Robot("r", [("-1", Link("-1", None, [], []))], [], [], [], []);
    FixedNameCanBeInvalid();
    assert ["-1"][..0] == [];
    assert Keys(r.links) == ["-1"];
  }

  /** The corrected renaming leaves only valid link and joint names, and keeps the valid ones. */
  lemma FixNamingCorrectedMeaning(r: Robot)
    ensures var r' := FixNamingCorrected(r).0;
      && (forall k :: k in Keys(r'.links) ==> IsValidName(k))
      && (forall k :: k in Keys(r'.joints) ==> IsValidName(k))
      && (forall k :: k in Keys(r.links) && IsValidName(k) ==> k in Keys(r'.links))
      && (forall k :: k in Keys(r.joints) && IsValidName(k) ==> k in Keys(r'.joints))
      && r'.materials == r.materials
  {
    var badLinks := Filter(Keys(r.links), IsInvalidName);
    FixLinkNamesKeys(r, badLinks, FixedNameCorrected);
    var r1 := FixLinkNames(r, badLinks, FixedNameCorrected).0;
    var badJoints := Filter(Keys(r1.joints), IsInvalidName);
    FixJointNamesKeys(r1, badJoints, FixedNameCorrected);
    var r' := FixJointNames(r1, badJoints, FixedNameCorrected).0;
    assert forall k :: k in FixedNames(badLinks, FixedNameCorrected) ==> IsValidName(k);
    assert forall k :: k in FixedNames(badJoints, FixedNameCorrected) ==> IsValidName(k);
  }

  /** After the intended fix, the linter reports no naming issue. */
  lemma FixNamingCorrectedLintClean(r: Robot)
    ensures var r' := FixNamingCorrected(r).0;
      NamingIssues("Link", r'.links) == [] && NamingIssues("Joint", r'.joints) == []
  {
    var r' := FixNamingCorrected(r).0;
    FixNamingCorrectedMeaning(r);
    NoNamingIssues("Link", r'.links);
    NoNamingIssues("Joint", r'.joints);
  }

  lemma {:induction false} NoNamingIssues<V>(kind: string, m: seq<(string, V)>)
    requires forall k :: k in Keys(m) ==> IsValidName(k)
    ensures NamingIssues(kind, m) == []
  {
    if m != [] {
      var init := m[..|m| - 1];
      assert forall k :: k in Keys(init) ==> k in Keys(m) by {
        forall k | k in Keys(init) ensures k in Keys(m) {
          var i :| 0 <= i < |init| && Keys(init)[i] == k;
          assert Keys(m)[i] == k;
        }
      }
      NoNamingIssues(kind, init);
      assert Keys(m)[|m| - 1] == m[|m| - 1].0;
    }
  }

  /** One more name for the link loop: renamed when its new name differs and it is still a key. */
  lemma FixLinkNamesSnoc(r: Robot, bad: seq<string>, i: nat)
    requires i < |bad|
    ensures var (r0, msgs) := FixLinkNames(r, bad[..i], FixedName);
      var oldName := bad[i];
      var newName := FixedName(oldName);
      FixLinkNames(r, bad[..i + 1], FixedName)
        == if newName != oldName && oldName in Keys(r0.links) then
             (RenameIn(r0, "link", oldName, newName).0, msgs + [LinkFixNote(oldName, newName)])
           else (r0, msgs)
  {
    assert bad[..i + 1][..i] == bad[..i];
  }

  /** The link loop of `fix_naming_conventions`. */
  method FixLinkNamesLoop(r: Robot, bad: seq<string>) returns (r': Robot, msgs: seq<string>)
    ensures (r', msgs) == FixLinkNames(r, bad, FixedName)
  {
    r', msgs := r, [];
    for i := 0 to |bad|
      invariant (r', msgs) == FixLinkNames(r, bad[..i], FixedName)
    {
      var oldName := bad[i];
      FixLinkNamesSnoc(r, bad, i);
      var newName := FixName(oldName);
      if newName != oldName {
        var renamed, found := RenameLink(r', oldName, newName);
        if found {
          r', msgs := renamed, msgs + [LinkFixNote(oldName, newName)];
        }
      }
    }
    assert bad[..|bad|] == bad;
  }

  /** One more name for the joint loop: renamed when its new name differs and it is still a key. */
  lemma FixJointNamesSnoc(r: Robot, bad: seq<string>, i: nat)
    requires i < |bad|
    ensures var (r0, msgs) := FixJointNames(r, bad[..i], FixedName);
      var oldName := bad[i];
      var newName := FixedName(oldName);
      FixJointNames(r, bad[..i + 1], FixedName)
        == if newName != oldName && oldName in Keys(r0.joints) then
             (RenameIn(r0, "joint", oldName, newName).0, msgs + [JointFixNote(oldName, newName)])
           else (r0, msgs)
  {
    assert bad[..i + 1][..i] == bad[..i];
  }

  /** The joint loop of `fix_naming_conventions`. */
  method FixJointNamesLoop(r: Robot, bad: seq<string>) returns (r': Robot, msgs: seq<string>)
    ensures (r', msgs) == FixJointNames(r, bad, FixedName)
  {
    r', msgs := r, [];
    for i := 0 to |bad|
      invariant (r', msgs) == FixJointNames(r, bad[..i], FixedName)
    {
      var oldName := bad[i];
      FixJointNamesSnoc(r, bad, i);
      var newName := FixName(oldName);
      if newName != oldName {
        var renamed, found := RenameJoint(r', oldName, newName);
        if found {
          r', msgs := renamed, msgs + [JointFixNote(oldName, newName)];
        }
      }
    }
    assert bad[..|bad|] == bad;
  }

  /** `fix_naming_conventions`: the invalid names are listed before each loop starts. */
  method FixNamingConventions(doc: Document) returns (changes: seq<string>)
    modifies doc
    ensures (doc.robot, changes) == FixNaming(old(doc.robot))
    ensures doc.rawXml == old(doc.rawXml)
  {
    var r := doc.robot;
    var r1, linkNotes := FixLinkNamesLoop(r, Filter(Keys(r.links), IsInvalidName));
    var r2, jointNotes := FixJointNamesLoop(r1, Filter(Keys(r1.joints), IsInvalidName));
    doc.robot := r2;
    changes := linkNotes + jointNotes;
  }

  // ---------------------------------------------------------------- sort_elements

  /** The order of `String`: lexicographic, character by character, a prefix first. */
  predicate StrLeq(a: string, b: string)
    decreases |a|
  {
    a == [] || (b != [] && (a[0] < b[0] || (a[0] == b[0] && StrLeq(a[1..], b[1..]))))
  }

  lemma {:induction false} StrLeqTotal(a: string, b: string)
    ensures StrLeq(a, b) || StrLeq(b, a)
    decreases |a|
  {
    if a != [] && b != [] && a[0] == b[0] {
      StrLeqTotal(a[1..], b[1..]);
    }
  }

  lemma {:induction false} StrLeqAntisymmetric(a: string, b: string)
    requires StrLeq(a, b) && StrLeq(b, a)
    ensures a == b
    decreases |a|
  {
    if a != [] {
      StrLeqAntisymmetric(a[1..], b[1..]);
      assert a == [a[0]] + a[1..] && b == [b[0]] + b[1..];
    }
  }

  lemma {:induction false} StrLeqTransitive(a: string, b: string, c: string)
    requires StrLeq(a, b) && StrLeq(b, c)
    ensures StrLeq(a, c)
    decreases |a|
  {
    if a != [] && a[0] == b[0] && b[0] == c[0] {
      StrLeqTransitive(a[1..], b[1..], c[1..]);
    }
  }

  predicate Ascending(s: seq<string>) {
    forall i, j :: 0 <= i < j < |s| ==> StrLeq(s[i], s[j])
  }

  /** `x` put into a sequence before the first element it does not exceed. */
  function InsertSorted(x: string, s: seq<string>): (r: seq<string>)
    ensures multiset(r) == multiset(s) + multiset{x}
  {
    if s == [] then [x]
    else if StrLeq(x, s[0]) then [x] + s
    else
      assert s == [s[0]] + s[1..];
      [s[0]] + InsertSorted(x, s[1..])
  }

  /** Inserting into an ascending sequence keeps it ascending. */
  lemma {:induction false} InsertSortedAscending(x: string, s: seq<string>)
    requires Ascending(s)
    ensures Ascending(InsertSorted(x, s))
  {
    if s == [] {
    } else if StrLeq(x, s[0]) {
      forall j | 0 <= j < |s| ensures StrLeq(x, s[j]) {
        if j > 0 { StrLeqTransitive(x, s[0], s[j]); }
      }
      ConsAscending(x, s);
    } else {
      InsertSortedAscending(x, s[1..]);
      StrLeqTotal(x, s[0]);
      InsertSortedBound(s[0], x, s[1..]);
      ConsAscending(s[0], InsertSorted(x, s[1..]));
    }
  }

  /** A first element that does not exceed any other keeps a sequence ascending. */
  lemma ConsAscending(h: string, t: seq<string>)
    requires Ascending(t) && forall j :: 0 <= j < |t| ==> StrLeq(h, t[j])
    ensures Ascending([h] + t)
  {
    forall i, j | 0 <= i < j < |t| + 1 ensures StrLeq(([h] + t)[i], ([h] + t)[j]) {
      assert ([h] + t)[j] == t[j - 1];
      if i > 0 { assert ([h] + t)[i] == t[i - 1]; }
    }
  }

  /** A lower bound of `x` and of every element of `s` bounds every element of their insertion. */
  lemma InsertSortedBound(b: string, x: string, s: seq<string>)
    requires StrLeq(b, x) && forall j :: 0 <= j < |s| ==> StrLeq(b, s[j])
    ensures forall j :: 0 <= j < |InsertSorted(x, s)| ==> StrLeq(b, InsertSorted(x, s)[j])
  {
    var r := InsertSorted(x, s);
    forall j | 0 <= j < |r| ensures StrLeq(b, r[j]) {
      var y := r[j];
      assert y in multiset(r);
      if y != x {
        assert y in multiset(s);
        var k :| 0 <= k < |s| && s[k] == y;
      }
    }
  }

  /** `slice::sort` on the names: the ascending arrangement of the same names. */
  function SortStrings(s: seq<string>): (r: seq<string>)
    ensures multiset(r) == multiset(s)
    ensures Ascending(r)
  {
    if s == [] then [] else
      assert s == [s[0]] + s[1..];
      InsertSortedAscending(s[0], SortStrings(s[1..]));
      InsertSorted(s[0], SortStrings(s[1..]))
  }

  /** A sequence that is already ascending is its own sorted arrangement. */
  lemma {:induction false} SortAscending(s: seq<string>)
    requires Ascending(s)
    ensures SortStrings(s) == s
  {
    if s != [] {
      SortAscending(s[1..]);
      if |s| > 1 {
        assert StrLeq(s[0], s[1]);
      }
      assert s == [s[0]] + s[1..];
    }
  }

  /** Distinct elements stay distinct under rearrangement. */
  lemma {:induction false} DistinctRearranged(a: seq<string>, b: seq<string>)
    requires multiset(a) == multiset(b) && Distinct(b)
    ensures Distinct(a)
  {
    forall i, j | 0 <= i < j < |a| ensures a[i] != a[j] {
      if a[i] == a[j] {
        var x := a[i];
        assert a == a[..i] + [x] + a[i + 1..j] + [x] + a[j + 1..];
        assert multiset(a)[x] >= 2;
        MultiplicityOfDistinct(b, x);
      }
    }
  }

  lemma {:induction false} MultiplicityOfDistinct(s: seq<string>, x: string)
    requires Distinct(s)
    ensures multiset(s)[x] <= 1
  {
    if s != [] {
      assert s == [s[0]] + s[1..];
      assert Distinct(s[1..]) by {
        forall i, j | 0 <= i < j < |s[1..]| ensures s[1..][i] != s[1..][j] { assert s[1..][i] == s[i + 1]; }
      }
      MultiplicityOfDistinct(s[1..], x);
      if s[0] == x {
        assert x !in s[1..] by {
          forall k | 0 <= k < |s[1..]| ensures s[1..][k] != x { assert s[1..][k] == s[k + 1]; }
        }
      }
    }
  }

  /**
   * The loop of `sort_elements`: each listed name, in turn, is removed from the map and its
   * value inserted into a new one. The result is the map left over and the new map.
   */
  function MoveAll<V>(m: IndexMap<V>, names: seq<string>): (IndexMap<V>, IndexMap<V>) {
    if names == [] then (m, [])
    else
      var (rest, acc) := MoveAll(m, names[..|names| - 1]);
      var k := names[|names| - 1];
      match Get(rest, k)
      case Some(v) => (SwapRemove(rest, k), Insert(acc, k, v))
      case None => (rest, acc)
  }

  /** Moving distinct names that are all present builds a map with exactly those keys, in that order, and the same values. */
  lemma {:induction false} MoveAllMeaning<V>(m: IndexMap<V>, names: seq<string>)
    requires Distinct(names) && forall k :: k in names ==> k in Keys(m)
    ensures var (rest, acc) := MoveAll(m, names);
      && Keys(acc) == names
      && (forall k :: k in names ==> Get(acc, k) == Get(m, k))
      && (forall k :: k in Keys(rest) <==> k in Keys(m) && k !in names)
      && (forall k :: k !in names ==> Get(rest, k) == Get(m, k))
  {
    if names != [] {
      var init, k := names[..|names| - 1], names[|names| - 1];
      assert names == init + [k];
      assert Distinct(init) by {
        forall i, j | 0 <= i < j < |init| ensures init[i] != init[j] { assert init[i] == names[i] && init[j] == names[j]; }
      }
      assert k !in init by {
        forall i | 0 <= i < |init| ensures init[i] != k { assert init[i] == names[i]; }
      }
      MoveAllMeaning(m, init);
    }
  }

  /** A map rebuilt in ascending key order. */
  function SortedEntries<V>(m: IndexMap<V>): IndexMap<V> {
    MoveAll(m, SortStrings(Keys(m))).1
  }

  /** The rebuilt map has the same keys, now ascending, and the same value under each key. */
  lemma SortedEntriesMeaning<V>(m: IndexMap<V>)
    ensures var r := SortedEntries(m);
      && Keys(r) == SortStrings(Keys(m))
      && Ascending(Keys(r)) && multiset(Keys(r)) == multiset(Keys(m))
      && (forall k :: Get(r, k) == Get(m, k))
  {
    var names := SortStrings(Keys(m));
    KeysDistinct(m);
    DistinctRearranged(names, Keys(m));
    assert forall k :: k in names ==> k in Keys(m) by {
      forall k | k in names ensures k in Keys(m) { assert k in multiset(names); }
    }
    MoveAllMeaning(m, names);
    forall k ensures Get(SortedEntries(m), k) == Get(m, k) {
      if k !in names {
        assert k !in multiset(Keys(m));
      }
    }
  }

  /** Rebuilding in key order reorders the keys exactly when they were not ascending already. */
  lemma SortedEntriesReorders<V>(m: IndexMap<V>)
    ensures Keys(SortedEntries(m)) != Keys(m) <==> !Ascending(Keys(m))
  {
    SortedEntriesMeaning(m);
    if Ascending(Keys(m)) { SortAscending(Keys(m)); }
  }

  const SortedLinksNote := "Sorted links alphabetically"
  const SortedJointsNote := "Sorted joints alphabetically"

  /** `sort_elements` on the robot: links, then joints, each with a message when its order changed. */
  function Sorted(r: Robot): (Robot, seq<string>) {
    var links, joints := SortedEntries(r.links), SortedEntries(r.joints);
    (r.(links := links, joints := joints),
     (if Keys(r.links) != Keys(links) then [SortedLinksNote] else [])
     + (if Keys(r.joints) != Keys(joints) then [SortedJointsNote] else []))
  }

  /**
   * Sorting keeps every link and joint under its key, leaves the keys ascending, and reports
   * a collection exactly when its keys were not ascending already.
   */
  lemma SortedMeaning(r: Robot)
    ensures var (r', msgs) := Sorted(r);
      && Ascending(Keys(r'.links)) && Ascending(Keys(r'.joints))
      && multiset(Keys(r'.links)) == multiset(Keys(r.links)) && multiset(Keys(r'.joints)) == multiset(Keys(r.joints))
      && (forall k :: Get(r'.links, k) == Get(r.links, k)) && (forall k :: Get(r'.joints, k) == Get(r.joints, k))
      && r'.materials == r.materials && r'.gazebo == r.gazebo && r'.transmissions == r.transmissions
      && msgs == (if Ascending(Keys(r.links)) then [] else [SortedLinksNote])
                 + (if Ascending(Keys(r.joints)) then [] else [SortedJointsNote])
  {
    SortedEntriesMeaning(r.links);
    SortedEntriesMeaning(r.joints);
    SortedEntriesReorders(r.links);
    SortedEntriesReorders(r.joints);
  }

  /** Moving one more name: the step the loop of `SortEntries` takes. */
  lemma MoveAllStep<V>(m: IndexMap<V>, names: seq<string>, i: nat)
    requires i < |names|
    ensures var (rest, acc) := MoveAll(m, names[..i]); var k := names[i];
      MoveAll(m, names[..i + 1])
      == if Get(rest, k).Some? then (SwapRemove(rest, k), Insert(acc, k, Get(rest, k).value)) else (rest, acc)
  {
    assert names[..i + 1][..i] == names[..i];
  }

  /** One collection of `sort_elements`: sort the names, then move each entry into a new map. */
  method SortEntries<V>(m: IndexMap<V>) returns (sorted: IndexMap<V>)
    ensures sorted == SortedEntries(m)
  {
    var names := SortStrings(Keys(m));
    var rest := m;
    sorted := [];
    for i := 0 to |names|
      invariant (rest, sorted) == MoveAll(m, names[..i])
    {
      MoveAllStep(m, names, i);
      var value := Get(rest, names[i]);
      if value.Some? {
        rest := SwapRemove(rest, names[i]);
        sorted := Insert(sorted, names[i], value.value);
      }
    }
    assert names[..|names|] == names;
  }

  /** `sort_elements`. */
  method SortElements(doc: Document) returns (changes: seq<string>)
    modifies doc
    ensures (doc.robot, changes) == Sorted(old(doc.robot))
    ensures doc.rawXml == old(doc.rawXml)
  {
    var r := doc.robot;
    var links := SortEntries(r.links);
    var linksNote: seq<string> := [];
    if Keys(r.links) != Keys(links) {
      linksNote := [SortedLinksNote];
    }
    var joints := SortEntries(r.joints);
    var jointsNote: seq<string> := [];
    if Keys(r.joints) != Keys(joints) {
      jointsNote := [SortedJointsNote];
    }
    changes := linksNote + jointsNote;
    doc.robot := r.(links := links, joints := joints);
  }

  // ---------------------------------------------------------------- fix_document

  /** Which fixes `fix_document` applies. */
  datatype FixOptions = FixOptions(
    removeDuplicates: bool, fixNaming: bool, addMissingProperties: bool,
    cleanWhitespace: bool, sortElements: bool, removeUnusedMaterials: bool)

  /** The default: remove duplicates, remove unused materials and clean whitespace. */
  const DefaultFixOptions := FixOptions(true, false, false, true, false, true)

  const CleanedNote := "Cleaned whitespace and formatting"

  /**
   * The robot and the messages after the model-changing steps of `fix_document`: the steps
   * run in a fixed order, each on the robot the previous one left. Removing duplicates
   * contributes nothing (see `RemoveDuplicates`); adding missing properties only reports.
   */
  function FixedRobot(r: Robot, o: FixOptions): (Robot, seq<string>) {
    var s2 := UnusedStep(r, o);
    var s3 := NamingStep(s2.0, o);
    var c4 := MissingStep(s3.0, o);
    var s5 := SortStep(s3.0, o);
    (s5.0, s2.1 + s3.1 + c4 + s5.1)
  }

  /** The robot and the messages after `fix_document`: the steps, then the cleaning note. */
  function Fixed(r: Robot, o: FixOptions): (Robot, seq<string>) {
    (FixedRobot(r, o).0, FixedRobot(r, o).1 + (if o.cleanWhitespace then [CleanedNote] else []))
  }

  function UnusedStep(r: Robot, o: FixOptions): (Robot, seq<string>) {
    if o.removeUnusedMaterials then WithoutUnusedMaterials(r) else (r, [])
  }

  function NamingStep(r: Robot, o: FixOptions): (Robot, seq<string>) {
    if o.fixNaming then FixNaming(r) else (r, [])
  }

  function MissingStep(r: Robot, o: FixOptions): seq<string> {
    if o.addMissingProperties then MissingInertialNotes(r.links) else []
  }

  function SortStep(r: Robot, o: FixOptions): (Robot, seq<string>) {
    if o.sortElements then Sorted(r) else (r, [])
  }

  /** The steps of `fix_document` that change the robot, in its order; the text is left alone. */
  method FixRobot(doc: Document, options: FixOptions) returns (changes: seq<string>)
    modifies doc
    ensures (doc.robot, changes) == FixedRobot(old(doc.robot), options)
    ensures doc.rawXml == old(doc.rawXml)
  {
    ghost var r := doc.robot;
    var c1, c2, c3, c4, c5: seq<string> := [], [], [], [], [];
    if options.removeDuplicates {
      c1 := RemoveDuplicates(doc);
    }
    if options.removeUnusedMaterials {
      c2 := RemoveUnusedMaterials(doc);
    }
    ghost var s2 := (doc.robot, c2);
    assert s2 == UnusedStep(r, options);
    if options.fixNaming {
      c3 := FixNamingConventions(doc);
    }
    ghost var s3 := (doc.robot, c3);
    assert s3 == NamingStep(s2.0, options);
    if options.addMissingProperties {
      c4 := AddMissingProperties(doc.robot);
    }
    assert c4 == MissingStep(s3.0, options);
    if options.sortElements {
      c5 := SortElements(doc);
    }
    assert (doc.robot, c5) == SortStep(s3.0, options);
    assert c1 + c2 == c2;
    changes := c1 + c2 + c3 + c4 + c5;
  }

  /** `fix_document`: the text is regenerated only when whitespace cleaning is asked for. */
  method FixDocument(doc: Document, options: FixOptions) returns (changes: seq<string>)
    modifies doc
    ensures (doc.robot, changes) == Fixed(old(doc.robot), options)
    ensures doc.rawXml == if options.cleanWhitespace then Regenerated(doc.robot) else old(doc.rawXml)
  {
    changes := FixRobot(doc, options);
    if options.cleanWhitespace {
      RegenerateXml(doc);
      changes := changes + [CleanedNote];
    } else {
      assert changes + [] == changes;
    }
  }

  /**
   * With the default options only unused materials go: links, joints and the rest stay, no
   * unused material is left, and the messages are the removal notes then the cleaning note.
   */
  lemma DefaultFix(r: Robot)
    ensures var (r', msgs) := Fixed(r, DefaultFixOptions);
      && r' == r.(materials := r'.materials)
      && UnusedMaterialIssues(r'.materials, UsedMaterials(r'.links)) == []
      && msgs == WithoutUnusedMaterials(r).1 + [CleanedNote]
  {
    var (r2, c2) := WithoutUnusedMaterials(r);
    assert FixedRobot(r, DefaultFixOptions) == (r2, c2 + [] + [] + []);
    assert c2 + [] + [] + [] == c2;
    NoUnusedMaterialAfterRemoval(r);
  }

  /**
   * Whenever naming is fixed, whatever else runs, every link and joint name in the result
   * is valid or digit-led: `fix_name` never leaves a character outside the convention.
   */
  lemma {:induction false} FixedNamingChars(r: Robot, o: FixOptions)
    requires o.fixNaming
    ensures forall k :: k in Keys(Fixed(r, o).0.links) ==> IsValidName(k) || DigitLed(k)
    ensures forall k :: k in Keys(Fixed(r, o).0.joints) ==> IsValidName(k) || DigitLed(k)
  {
    var r2 := if o.removeUnusedMaterials then WithoutUnusedMaterials(r).0 else r;
    var r3 := FixNaming(r2).0;
    FixNamingMeaning(r2);
    var r5 := Fixed(r, o).0;
    if o.sortElements {
      SortedMeaning(r3);
      assert forall k :: k in Keys(r5.links) ==> k in Keys(r3.links) by {
        forall k | k in Keys(r5.links) ensures k in Keys(r3.links) { assert k in multiset(Keys(r5.links)); }
      }
      assert forall k :: k in Keys(r5.joints) ==> k in Keys(r3.joints) by {
        forall k | k in Keys(r5.joints) ensures k in Keys(r3.joints) { assert k in multiset(Keys(r5.joints)); }
      }
    }
  }

  // ---------------------------------------------------------------- clean_xml_whitespace

  /** A line that is not blank and neither starts nor ends with whitespace. */
  predicate CleanLine(t: string) {
    t != [] && !IsWhitespace(t[0]) && !IsWhitespace(t[|t| - 1])
  }

  /** The trimmed lines, with the ones left empty dropped. */
  function CleanLines(lines: seq<string>): seq<string> {
    if lines == [] then []
    else
      var t := Trim(lines[0]);
      (if t == [] then [] else [t]) + CleanLines(lines[1..])
  }

  /** Every line that cleaning keeps is non-empty and neither starts nor ends with whitespace. */
  lemma {:induction false} CleanLinesClean(lines: seq<string>)
    ensures forall k :: 0 <= k < |CleanLines(lines)| ==> CleanLine(CleanLines(lines)[k])
  {
    if lines != [] {
      var t := Trim(lines[0]);
      var rest := CleanLines(lines[1..]);
      CleanLinesClean(lines[1..]);
      if t != [] {
        assert CleanLine(t);
        var all := [t] + rest;
        assert CleanLines(lines) == all;
        forall k | 0 <= k < |all| ensures CleanLine(all[k]) {
          if k > 0 { assert all[k] == rest[k - 1]; }
        }
      } else {
        assert CleanLines(lines) == rest;
      }
    }
  }

  /** Trimming only removes characters. */
  lemma TrimWithin(s: string)
    ensures forall c :: c in Trim(s) ==> c in s
  {
    var t := TrimStart(s);
    forall c | c in Trim(s) ensures c in s {
      var i :| 0 <= i < |Trim(s)| && Trim(s)[i] == c;
      assert t[i] == c;
      assert s[|s| - |t| + i] == c;
    }
  }

  /** Lines without a line feed stay without one when cleaned. */
  lemma {:induction false} CleanLinesNoNewline(lines: seq<string>)
    requires forall k :: 0 <= k < |lines| ==> '\n' !in lines[k]
    ensures forall k :: 0 <= k < |CleanLines(lines)| ==> '\n' !in CleanLines(lines)[k]
  {
    if lines != [] {
      TrimWithin(lines[0]);
      CleanLinesNoNewline(lines[1..]);
      assert forall k :: 0 <= k < |lines[1..]| ==> lines[1..][k] == lines[k + 1];
    }
  }

  /**
   * `clean_xml_whitespace`: every line trimmed, blank lines dropped, joined with line feeds.
   * The lines of the result are the trimmed non-blank lines of the input, so none of them
   * is blank or starts or ends with whitespace.
   */
  function CleanXmlWhitespace(xml: string): (r: string)
    ensures Lines(r) == CleanLines(Lines(xml))
    ensures forall k :: 0 <= k < |Lines(r)| ==> CleanLine(Lines(r)[k])
  {
    var ls := CleanLines(Lines(xml));
    CleanLinesNoNewline(Lines(xml));
    CleanLinesClean(Lines(xml));
    assert forall k :: 0 <= k < |ls| ==> ls[k][|ls[k]| - 1] != '\r';
    LinesOfJoin(ls);
    JoinLines(ls)
  }

  /** Lines that are already clean are kept as they are. */
  lemma {:induction false} CleanLinesOfClean(ls: seq<string>)
    requires forall k :: 0 <= k < |ls| ==> CleanLine(ls[k])
    ensures CleanLines(ls) == ls
  {
    if ls != [] {
      var head, tail := ls[0], ls[1..];
      assert CleanLine(head);
      TrimOfTrimmed(head);
      assert forall k :: 0 <= k < |tail| ==> CleanLine(tail[k]) by {
        forall k | 0 <= k < |tail| ensures CleanLine(tail[k]) { assert tail[k] == ls[k + 1]; }
      }
      CleanLinesOfClean(tail);
      assert CleanLines(ls) == [head] + CleanLines(tail);
      assert ls == [head] + tail;
    }
  }

  /** Cleaning twice is cleaning once. */
  lemma CleanXmlWhitespaceIdempotent(xml: string)
    ensures CleanXmlWhitespace(CleanXmlWhitespace(xml)) == CleanXmlWhitespace(xml)
  {
    CleanLinesClean(Lines(xml));
    CleanLinesOfClean(CleanLines(Lines(xml)));
  }
}
