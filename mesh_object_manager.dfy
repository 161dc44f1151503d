/** MeshObjectManager: the immersed objects of a scene, kept in five maps keyed by id (the
    meshes, their display names and display modes, and the shapes and normal arrows drawn
    for them), with the colour each new mesh gets. */
module MeshObjectManagers {
  import opened Outcomes
  import opened MeshTypes
  import opened JavaText
  import opened MeshResolutions

  /** How an object is drawn. */
  datatype DisplayMode = Mesh | Simple

  /** What setDisplayName stores: a non-null name with a character above U+0020. */
  function DisplayNameAccepted(displayName: Option<string>): (b: bool)
    ensures b <==> displayName.Some? && exists i :: 0 <= i < |displayName.value| && !IsTrimmable(displayName.value[i])
  {
    match displayName
    case None => false
    case Some(name) => TrimIsEmptyIff(name); Trim(name) != []
  }

  /** Shape and Group stand for the JavaFX nodes drawn for an object; they are only stored. */
  class MeshObjectManager<Shape, Group> {
    var allMeshes: map<string, MeshResolution>
    var objectDisplayNames: map<string, string>
    var objectDisplayModes: map<string, DisplayMode>
    var shapes: map<string, Shape>
    var normalArrows: map<string, Group>
    /** how many colours the colour handler has handed out */
    var colorsTaken: nat
    /** the colour handler's k-th colour */
    const nextColor: nat -> Color

    constructor (nextColor: nat -> Color)
      ensures allMeshes == map[] && objectDisplayNames == map[] && objectDisplayModes == map[]
      ensures shapes == map[] && normalArrows == map[] && colorsTaken == 0
      ensures this.nextColor == nextColor
    {
      allMeshes, objectDisplayNames, objectDisplayModes := map[], map[], map[];
      shapes, normalArrows := map[], map[];
      colorsTaken := 0;
      this.nextColor := nextColor;
    }

    /** addObject: the mesh gets its position, keeps the existing colour when there is one and
        otherwise takes the next colour, and is stored under the id, replacing any earlier
        mesh of that id. The position is given already scaled. */
    method AddObject(controllerId: string, meshResolution: MeshResolution, position: Node, existingColor: Option<Color>)
      modifies this, meshResolution`color, meshResolution`position
      ensures meshResolution.position == position
      ensures existingColor.Some? ==> meshResolution.color == existingColor && colorsTaken == old(colorsTaken)
      ensures existingColor.None? ==> meshResolution.color == Some(nextColor(old(colorsTaken)))
                                      && colorsTaken == old(colorsTaken) + 1
      ensures allMeshes == old(allMeshes)[controllerId := meshResolution]
      ensures objectDisplayNames == old(objectDisplayNames) && objectDisplayModes == old(objectDisplayModes)
      ensures shapes == old(shapes) && normalArrows == old(normalArrows)
      ensures HasObjects() && GetExistingColor(controllerId) == meshResolution.color
    {
      meshResolution.position := position;
      if existingColor.Some? {
        meshResolution.color := existingColor;
      } else {
        meshResolution.color := Some(nextColor(colorsTaken));
        colorsTaken := colorsTaken + 1;
      }
      allMeshes := allMeshes[controllerId := meshResolution];
      assert controllerId in allMeshes;
    }

    /** setDisplayName: a null or blank name is ignored. */
    method SetDisplayName(controllerId: string, displayName: Option<string>)
      modifies this
      ensures DisplayNameAccepted(displayName) ==> objectDisplayNames == old(objectDisplayNames)[controllerId := displayName.value]
      ensures !DisplayNameAccepted(displayName) ==> objectDisplayNames == old(objectDisplayNames)
      ensures GetDisplayName(controllerId) == if DisplayNameAccepted(displayName) then displayName.value else old(GetDisplayName(controllerId))
      ensures allMeshes == old(allMeshes) && objectDisplayModes == old(objectDisplayModes)
      ensures shapes == old(shapes) && normalArrows == old(normalArrows) && colorsTaken == old(colorsTaken)
    {
      if displayName.Some? && Trim(displayName.value) != [] {
        objectDisplayNames := objectDisplayNames[controllerId := displayName.value];
      }
    }

    method SetDisplayMode(objectId: string, mode: DisplayMode)
      modifies this
      ensures objectDisplayModes == old(objectDisplayModes)[objectId := mode]
      ensures GetDisplayMode(objectId) == mode
      ensures allMeshes == old(allMeshes) && objectDisplayNames == old(objectDisplayNames)
      ensures shapes == old(shapes) && normalArrows == old(normalArrows) && colorsTaken == old(colorsTaken)
    {
      objectDisplayModes := objectDisplayModes[objectId := mode];
    }

    /** getDisplayMode: the stored mode, MESH by default. */
    function GetDisplayMode(objectId: string): (mode: DisplayMode)
      reads this
      ensures objectId in objectDisplayModes ==> mode == objectDisplayModes[objectId]
      ensures objectId !in objectDisplayModes ==> mode == Mesh
    {
      if objectId in objectDisplayModes then objectDisplayModes[objectId] else Mesh
    }

    /** getDisplayName: the stored name, the id itself by default. */
    function GetDisplayName(objectId: string): (name: string)
      reads this
      ensures objectId in objectDisplayNames ==> name == objectDisplayNames[objectId]
      ensures objectId !in objectDisplayNames ==> name == objectId
    {
      if objectId in objectDisplayNames then objectDisplayNames[objectId] else objectId
    }

    /** removeObject: the id leaves the meshes, names and modes; its shape and normal arrow
        stay. */
    method RemoveObject(objectId: string)
      modifies this
      ensures allMeshes == old(allMeshes) - {objectId}
      ensures objectDisplayNames == old(objectDisplayNames) - {objectId}
      ensures objectDisplayModes == old(objectDisplayModes) - {objectId}
      ensures shapes == old(shapes) && normalArrows == old(normalArrows) && colorsTaken == old(colorsTaken)
      ensures GetDisplayName(objectId) == objectId && GetDisplayMode(objectId) == Mesh
      ensures GetExistingColor(objectId) == None
    {
      allMeshes := allMeshes - {objectId};
      objectDisplayNames := objectDisplayNames - {objectId};
      objectDisplayModes := objectDisplayModes - {objectId};
    }

    method AddShape(id: string, shape: Shape)
      modifies this
      ensures shapes == old(shapes)[id := shape]
      ensures allMeshes == old(allMeshes) && objectDisplayNames == old(objectDisplayNames)
      ensures objectDisplayModes == old(objectDisplayModes) && normalArrows == old(normalArrows)
      ensures colorsTaken == old(colorsTaken)
    {
      shapes := shapes[id := shape];
    }

    method RemoveShape(id: string)
      modifies this
      ensures shapes == old(shapes) - {id}
      ensures allMeshes == old(allMeshes) && objectDisplayNames == old(objectDisplayNames)
      ensures objectDisplayModes == old(objectDisplayModes) && normalArrows == old(normalArrows)
      ensures colorsTaken == old(colorsTaken)
    {
      shapes := shapes - {id};
    }

    method AddNormalArrow(id: string, normalArrow: Group)
      modifies this
      ensures normalArrows == old(normalArrows)[id := normalArrow]
      ensures allMeshes == old(allMeshes) && objectDisplayNames == old(objectDisplayNames)
      ensures objectDisplayModes == old(objectDisplayModes) && shapes == old(shapes)
      ensures colorsTaken == old(colorsTaken)
    {
      normalArrows := normalArrows[id := normalArrow];
    }

    method RemoveNormalArrow(id: string)
      modifies this
      ensures normalArrows == old(normalArrows) - {id}
      ensures allMeshes == old(allMeshes) && objectDisplayNames == old(objectDisplayNames)
      ensures objectDisplayModes == old(objectDisplayModes) && shapes == old(shapes)
      ensures colorsTaken == old(colorsTaken)
    {
      normalArrows := normalArrows - {id};
    }

    /** clear: no meshes, names or modes are left; shapes and normal arrows stay. */
    method Clear()
      modifies this
      ensures allMeshes == map[] && objectDisplayNames == map[] && objectDisplayModes == map[]
      ensures shapes == old(shapes) && normalArrows == old(normalArrows) && colorsTaken == old(colorsTaken)
      ensures !HasObjects()
      ensures forall id :: GetDisplayMode(id) == Mesh && GetDisplayName(id) == id
    {
      allMeshes, objectDisplayNames, objectDisplayModes := map[], map[], map[];
    }

    /** hasObjects: some mesh is stored. */
    function HasObjects(): (b: bool)
      reads this
      ensures b <==> exists id :: id in allMeshes
    {
      assert allMeshes != map[] ==> exists id :: id in allMeshes by {
        if allMeshes != map[] {
          var id :| id in allMeshes.Keys;
        }
      }
      allMeshes != map[]
    }

    /** getExistingColor: nothing for an unknown id, else the colour of its mesh. */
    function GetExistingColor(objectId: string): (c: Option<Color>)
      reads this, allMeshes.Values
      ensures objectId !in allMeshes ==> c == None
      ensures objectId in allMeshes ==> c == allMeshes[objectId].color
    {
      if objectId in allMeshes then allMeshes[objectId].color else None
    }
  }
}
