/** `TestPhysicalMeshes`: for every user mesh the control plane reports, a
    rows x cols grid of physical chip ids (logical ids assigned in row-major
    order), a reverse map from physical chip id to a stored coordinate pair,
    and the mesh dimensions; plus the "other chips on my row / column"
    queries built on them.

    The reverse map stores the pair (column, row) while the queries unpack it
    as `[chip_row, chip_col]`. `Coords` names its fields after that unpacking,
    so generation stores `Coords(chipRow := j, chipCol := i)` for the cell in
    row i, column j, and the queries index exactly as the harness does. */
module PhysicalMeshes {
  import opened Common

  /** The shape the control plane reports for a mesh. */
  datatype MeshShape = MeshShape(numRows: u32, numCols: u32)

  /** The control plane, injected as pure functions: the user mesh ids, each
      mesh's shape, the physical chip id of a (mesh, logical chip id) fabric
      node, and the mesh a physical chip belongs to. */
  datatype ControlPlane = ControlPlane(
    userPhysicalMeshIds: seq<MeshId>,
    physicalMeshShape: MeshId -> MeshShape,
    physicalChipIdFromFabricNode: (MeshId, nat) -> ChipId,
    meshIdOfPhysicalChip: ChipId -> MeshId)

  /** A two-slot dimension array, indexed by ROW_IDX and COL_IDX. */
  datatype Dims = Dims(atRowIdx: u32, atColIdx: u32)

  /** The coordinate pair stored per chip, named as the queries read it. */
  datatype Coords = Coords(chipRow: u32, chipCol: u32)

  datatype Meshes = Meshes(
    physicalChipView: map<MeshId, seq<seq<ChipId>>>,
    physicalChipCoords: map<MeshId, map<ChipId, Coords>>,
    physicalMeshDims: map<MeshId, Dims>,
    physicalMeshDimsSize: map<MeshId, Dims>,
    controlPlane: ControlPlane)

  function PhysicalId(cp: ControlPlane, mesh: MeshId, logical: nat): ChipId {
    cp.physicalChipIdFromFabricNode(mesh, logical)
  }

  function MeshOf(s: Meshes, physicalChipId: ChipId): MeshId {
    s.controlPlane.meshIdOfPhysicalChip(physicalChipId)
  }

  /** The logical chip id whose cell stored coordinates `c` name:
      row `c.chipCol`, column `c.chipRow`. */
  function LogicalOf(c: Coords, numCols: nat): nat {
    c.chipCol * numCols + c.chipRow
  }

  /** Physical ids of the logical chips 0 .. k-1 of a mesh. */
  ghost function IdsBelow(cp: ControlPlane, mesh: MeshId, k: nat): set<ChipId> {
    set l: nat | l < k :: PhysicalId(cp, mesh, l)
  }

  /** The control plane gives the first k logical chips distinct physical ids. */
  ghost predicate DistinctPhysicalIds(cp: ControlPlane, mesh: MeshId, k: nat) {
    forall a: nat, b: nat :: a < b < k ==> PhysicalId(cp, mesh, a) != PhysicalId(cp, mesh, b)
  }

  /** `v` is the row-major grid of the mesh's physical ids. */
  ghost predicate IsChipView(v: seq<seq<ChipId>>, cp: ControlPlane, mesh: MeshId, numRows: nat, numCols: nat) {
    && |v| == numRows
    && (forall i :: 0 <= i < numRows ==> |v[i]| == numCols)
    && forall i, j :: 0 <= i < numRows && 0 <= j < numCols ==> v[i][j] == PhysicalId(cp, mesh, i * numCols + j)
  }

  /** After the logical chips 0 .. k-1 were entered into `c`, the entry for
      logical chip l names a cell of the grid holding the same physical id,
      and it is the last such cell entered (later writes overwrite). */
  ghost predicate LastPlacement(c: map<ChipId, Coords>, cp: ControlPlane, mesh: MeshId,
                                numRows: nat, numCols: nat, l: nat, k: nat)
  {
    var p := PhysicalId(cp, mesh, l);
    && p in c
    && c[p].chipCol < numRows && c[p].chipRow < numCols
    && l <= LogicalOf(c[p], numCols) < k
    && PhysicalId(cp, mesh, LogicalOf(c[p], numCols)) == p
    && forall l': nat :: LogicalOf(c[p], numCols) < l' < k ==> PhysicalId(cp, mesh, l') != p
  }

  /** `c` is the reverse map generation leaves for the mesh. */
  ghost predicate IsChipCoords(c: map<ChipId, Coords>, cp: ControlPlane, mesh: MeshId, numRows: nat, numCols: nat) {
    && c.Keys == IdsBelow(cp, mesh, numRows * numCols)
    && forall l: nat :: l < numRows * numCols ==> LastPlacement(c, cp, mesh, numRows, numCols, l, numRows * numCols)
  }

  /** Everything generation records for one mesh. A mesh without cells gets a
      grid and dimensions but no reverse-map entry. */
  ghost predicate GeneratedMesh(s: Meshes, mesh: MeshId) {
    var shape := s.controlPlane.physicalMeshShape(mesh);
    var numRows, numCols := shape.numRows, shape.numCols;
    && mesh in s.physicalChipView && mesh in s.physicalMeshDims && mesh in s.physicalMeshDimsSize
    && s.physicalMeshDims[mesh] == Dims(numRows, numCols)
    && s.physicalMeshDimsSize[mesh] == Dims(numCols, numRows)
    && IsChipView(s.physicalChipView[mesh], s.controlPlane, mesh, numRows, numCols)
    && (mesh in s.physicalChipCoords <==> numRows * numCols > 0)
    && (mesh in s.physicalChipCoords ==>
          IsChipCoords(s.physicalChipCoords[mesh], s.controlPlane, mesh, numRows, numCols))
  }

  /** The invariant every `TestPhysicalMeshes` object keeps: each mesh it
      knows was generated from its own control plane. */
  ghost predicate Wf(s: Meshes) {
    && s.physicalMeshDims.Keys == s.physicalChipView.Keys
    && s.physicalMeshDimsSize.Keys == s.physicalChipView.Keys
    && s.physicalChipCoords.Keys <= s.physicalChipView.Keys
    && forall mesh :: mesh in s.physicalChipView ==> GeneratedMesh(s, mesh)
  }

  // ---------------------------------------------------------------------
  // Generation
  // ---------------------------------------------------------------------

  /** `set_mesh_dims_and_size`: the dims slot keeps (rows, cols), the size
      slot the swapped pair (cols, rows); nothing else changes. */
  function SetMeshDimsAndSize(s: Meshes, mesh: MeshId, dims: Dims): (r: Meshes)
    ensures r.physicalMeshDims == s.physicalMeshDims[mesh := dims]
    ensures mesh in r.physicalMeshDimsSize
    ensures r.physicalMeshDimsSize[mesh].atRowIdx == r.physicalMeshDims[mesh].atColIdx
    ensures r.physicalMeshDimsSize[mesh].atColIdx == r.physicalMeshDims[mesh].atRowIdx
    ensures r.physicalMeshDimsSize.Keys == s.physicalMeshDimsSize.Keys + {mesh}
    ensures forall m :: m in s.physicalMeshDimsSize && m != mesh ==>
              r.physicalMeshDimsSize[m] == s.physicalMeshDimsSize[m]
    ensures r.physicalChipView == s.physicalChipView
    ensures r.physicalChipCoords == s.physicalChipCoords
    ensures r.controlPlane == s.controlPlane
  {
    s.(physicalMeshDims := s.physicalMeshDims[mesh := dims],
       physicalMeshDimsSize := s.physicalMeshDimsSize[mesh := Dims(dims.atColIdx, dims.atRowIdx)])
  }

  /** The facts the reverse map carries once logical chips 0 .. k-1 were
      entered on top of `oldKeys`. */
  ghost predicate CoordsUpTo(c: map<ChipId, Coords>, oldKeys: set<ChipId>, cp: ControlPlane, mesh: MeshId,
                             numRows: nat, numCols: nat, k: nat)
  {
    && c.Keys == oldKeys + IdsBelow(cp, mesh, k)
    && forall l: nat :: l < k ==> LastPlacement(c, cp, mesh, numRows, numCols, l, k)
  }

  /** One step of the inner loop: entering logical chip k, at row i and
      column j, into the reverse map. */
  lemma CoordsStep(c: map<ChipId, Coords>, c': map<ChipId, Coords>, oldKeys: set<ChipId>, cp: ControlPlane,
                   mesh: MeshId, numRows: u32, numCols: u32, k: nat, i: nat, j: nat)
    requires i < numRows && j < numCols && k == i * numCols + j
    requires c' == c[PhysicalId(cp, mesh, k) := Coords(j, i)]
    requires CoordsUpTo(c, oldKeys, cp, mesh, numRows, numCols, k)
    ensures CoordsUpTo(c', oldKeys, cp, mesh, numRows, numCols, k + 1)
  {
    PlacementStep(c, c', cp, mesh, numRows, numCols, k, k + 1, i, j);
    IdsBelowStep(cp, mesh, k);
  }

  /** The inner loop of `generate_physical_chip_view`: row i, column by
      column, logical ids first .. first + cols - 1 where first = i * cols. */
  method GenerateRow(cp: ControlPlane, mesh: MeshId, numRows: u32, numCols: u32, i: nat, first: nat,
                     coords: map<ChipId, Coords>, ghost oldKeys: set<ChipId>)
    returns (row: seq<ChipId>, coords': map<ChipId, Coords>)
    requires i < numRows && first == i * numCols
    requires CoordsUpTo(coords, oldKeys, cp, mesh, numRows, numCols, first)
    ensures |row| == numCols
    ensures forall b :: 0 <= b < numCols ==> row[b] == PhysicalId(cp, mesh, first + b)
    ensures CoordsUpTo(coords', oldKeys, cp, mesh, numRows, numCols, first + numCols)
  {
    row := [];
    coords' := coords;
    var logical: nat := first;
    var j: nat := 0;
    while j < numCols
      invariant j <= numCols
      invariant logical == first + j
      invariant |row| == j
      invariant forall b :: 0 <= b < j ==> row[b] == PhysicalId(cp, mesh, first + b)
      invariant CoordsUpTo(coords', oldKeys, cp, mesh, numRows, numCols, logical)
    {
      var physicalChipId := cp.physicalChipIdFromFabricNode(mesh, logical);
      var next := coords'[physicalChipId := Coords(j, i)];
      CoordsStep(coords', next, oldKeys, cp, mesh, numRows, numCols, logical, i, j);
      row := row + [physicalChipId];
      coords' := next;
      logical := logical + 1;
      j := j + 1;
    }
  }

  /** The two nested loops of `generate_physical_chip_view`: rows top to
      bottom, each row left to right, logical ids counting up from 0, each
      physical id written into the grid and its (column, row) pair into the
      reverse map, which starts from the mesh's earlier entries. */
  method GenerateGrid(cp: ControlPlane, mesh: MeshId, numRows: u32, numCols: u32, oldCoords: map<ChipId, Coords>)
    returns (view: seq<seq<ChipId>>, coords: map<ChipId, Coords>)
    ensures IsChipView(view, cp, mesh, numRows, numCols)
    ensures CoordsUpTo(coords, oldCoords.Keys, cp, mesh, numRows, numCols, numRows * numCols)
  {
    view := [];
    coords := oldCoords;
    var i: nat := 0;
    assert IdsBelow(cp, mesh, 0) == {};
    while i < numRows
      invariant i <= numRows
      invariant |view| == i
      invariant forall a :: 0 <= a < i ==> |view[a]| == numCols
      invariant forall a, b :: 0 <= a < i && 0 <= b < numCols ==> view[a][b] == PhysicalId(cp, mesh, a * numCols + b)
      invariant CoordsUpTo(coords, oldCoords.Keys, cp, mesh, numRows, numCols, i * numCols)
    {
      var row;
      row, coords := GenerateRow(cp, mesh, numRows, numCols, i, i * numCols, coords, oldCoords.Keys);
      view := view + [row];
      assert (i + 1) * numCols == i * numCols + numCols;
      i := i + 1;
    }
  }

  /** `generate_physical_chip_view`: records the mesh's dimensions, then
      fills its grid and reverse map. Under `Wf` any earlier grid of the mesh
      already has the mesh's shape, so the source's resize keeps it and every
      cell is overwritten; a mesh without cells gets no reverse-map entry. */
  method GeneratePhysicalChipView(s: Meshes, mesh: MeshId) returns (s': Meshes)
    requires Wf(s)
    ensures Wf(s')
    ensures s'.controlPlane == s.controlPlane
    ensures s'.physicalChipView.Keys == s.physicalChipView.Keys + {mesh}
    ensures forall m :: m in s.physicalChipView && m != mesh ==>
              && s'.physicalChipView[m] == s.physicalChipView[m]
              && s'.physicalMeshDims[m] == s.physicalMeshDims[m]
              && (m in s'.physicalChipCoords <==> m in s.physicalChipCoords)
              && (m in s.physicalChipCoords ==> s'.physicalChipCoords[m] == s.physicalChipCoords[m])
  {
    var shape := s.controlPlane.physicalMeshShape(mesh);
    var oldCoords := if mesh in s.physicalChipCoords then s.physicalChipCoords[mesh] else map[];
    var view, coords := GenerateGrid(s.controlPlane, mesh, shape.numRows, shape.numCols, oldCoords);
    s' := InstallGrid(s, mesh, view, coords);
    InstallGridWf(s, mesh, view, coords, oldCoords);
  }

  /** The state after generation: dimensions set, grid stored, reverse map
      stored when the mesh has cells. */
  function InstallGrid(s: Meshes, mesh: MeshId, view: seq<seq<ChipId>>, coords: map<ChipId, Coords>): Meshes {
    var shape := s.controlPlane.physicalMeshShape(mesh);
    var withDims := SetMeshDimsAndSize(s, mesh, Dims(shape.numRows, shape.numCols));
    withDims.(
      physicalChipView := withDims.physicalChipView[mesh := view],
      physicalChipCoords := if shape.numRows * shape.numCols > 0 then withDims.physicalChipCoords[mesh := coords]
                            else withDims.physicalChipCoords)
  }

  /** The state `generate_physical_chip_view` leaves keeps the invariant and
      leaves the other meshes alone. */
  lemma InstallGridWf(s: Meshes, mesh: MeshId, view: seq<seq<ChipId>>,
                      coords: map<ChipId, Coords>, oldCoords: map<ChipId, Coords>)
    requires Wf(s)
    requires var shape := s.controlPlane.physicalMeshShape(mesh);
             && IsChipView(view, s.controlPlane, mesh, shape.numRows, shape.numCols)
             && oldCoords == (if mesh in s.physicalChipCoords then s.physicalChipCoords[mesh] else map[])
             && CoordsUpTo(coords, oldCoords.Keys, s.controlPlane, mesh, shape.numRows, shape.numCols,
                           shape.numRows * shape.numCols)
    ensures var s' := InstallGrid(s, mesh, view, coords);
            && Wf(s')
            && s'.controlPlane == s.controlPlane
            && s'.physicalChipView.Keys == s.physicalChipView.Keys + {mesh}
            && forall m :: m in s.physicalChipView && m != mesh ==>
                 && s'.physicalChipView[m] == s.physicalChipView[m]
                 && s'.physicalMeshDims[m] == s.physicalMeshDims[m]
                 && (m in s'.physicalChipCoords <==> m in s.physicalChipCoords)
                 && (m in s.physicalChipCoords ==> s'.physicalChipCoords[m] == s.physicalChipCoords[m])
  {
    var s' := InstallGrid(s, mesh, view, coords);
    InstallGridFrame(s, mesh, view, coords);
    NewMeshGenerated(s, mesh, view, coords, oldCoords);
    forall m | m in s'.physicalChipView
      ensures GeneratedMesh(s', m)
    {
      if m != mesh {
        GeneratedMeshFrame(s, s', m);
      }
    }
  }

  /** Installing one mesh's grid leaves every other mesh's entries alone. */
  lemma InstallGridFrame(s: Meshes, mesh: MeshId, view: seq<seq<ChipId>>, coords: map<ChipId, Coords>)
    requires s.physicalMeshDims.Keys == s.physicalChipView.Keys
    requires s.physicalMeshDimsSize.Keys == s.physicalChipView.Keys
    requires s.physicalChipCoords.Keys <= s.physicalChipView.Keys
    ensures var s' := InstallGrid(s, mesh, view, coords);
            && s'.controlPlane == s.controlPlane
            && s'.physicalChipView.Keys == s.physicalChipView.Keys + {mesh}
            && s'.physicalMeshDims.Keys == s'.physicalChipView.Keys
            && s'.physicalMeshDimsSize.Keys == s'.physicalChipView.Keys
            && s'.physicalChipCoords.Keys <= s'.physicalChipView.Keys
            && forall m :: m in s.physicalChipView && m != mesh ==>
                 && s'.physicalChipView[m] == s.physicalChipView[m]
                 && s'.physicalMeshDims[m] == s.physicalMeshDims[m]
                 && s'.physicalMeshDimsSize[m] == s.physicalMeshDimsSize[m]
                 && (m in s'.physicalChipCoords <==> m in s.physicalChipCoords)
                 && (m in s.physicalChipCoords ==> s'.physicalChipCoords[m] == s.physicalChipCoords[m])
  {
  }

  /** What generation records for a mesh depends on that mesh's entries
      only. */
  lemma GeneratedMeshFrame(s: Meshes, s': Meshes, m: MeshId)
    requires GeneratedMesh(s, m)
    requires s'.controlPlane == s.controlPlane
    requires m in s'.physicalChipView && s'.physicalChipView[m] == s.physicalChipView[m]
    requires m in s'.physicalMeshDims && s'.physicalMeshDims[m] == s.physicalMeshDims[m]
    requires m in s'.physicalMeshDimsSize && s'.physicalMeshDimsSize[m] == s.physicalMeshDimsSize[m]
    requires m in s'.physicalChipCoords <==> m in s.physicalChipCoords
    requires m in s.physicalChipCoords ==> s'.physicalChipCoords[m] == s.physicalChipCoords[m]
    ensures GeneratedMesh(s', m)
  {
  }

  /** The freshly generated mesh satisfies `GeneratedMesh`: the earlier
      reverse-map entries of the mesh, if any, are all overwritten. */
  lemma NewMeshGenerated(s: Meshes, mesh: MeshId, view: seq<seq<ChipId>>,
                         coords: map<ChipId, Coords>, oldCoords: map<ChipId, Coords>)
    requires Wf(s)
    requires var shape := s.controlPlane.physicalMeshShape(mesh);
             && IsChipView(view, s.controlPlane, mesh, shape.numRows, shape.numCols)
             && oldCoords == (if mesh in s.physicalChipCoords then s.physicalChipCoords[mesh] else map[])
             && CoordsUpTo(coords, oldCoords.Keys, s.controlPlane, mesh, shape.numRows, shape.numCols,
                           shape.numRows * shape.numCols)
    ensures GeneratedMesh(InstallGrid(s, mesh, view, coords), mesh)
  {
    var cp := s.controlPlane;
    var shape := cp.physicalMeshShape(mesh);
    if mesh in s.physicalChipCoords {
      assert GeneratedMesh(s, mesh);
      assert oldCoords.Keys == IdsBelow(cp, mesh, shape.numRows * shape.numCols);
    }
    if shape.numRows * shape.numCols > 0 {
      assert IsChipCoords(coords, cp, mesh, shape.numRows, shape.numCols);
    } else if mesh in s.physicalChipView {
      assert GeneratedMesh(s, mesh);
    }
  }

  /** `setup_physical_meshes`: generates every user mesh of the control
      plane into a fresh object. */
  method SetupPhysicalMeshes(cp: ControlPlane) returns (s: Meshes)
    ensures Wf(s)
    ensures s.controlPlane == cp
    ensures forall mesh :: mesh in s.physicalChipView <==> mesh in cp.userPhysicalMeshIds
  {
    s := Meshes(map[], map[], map[], map[], cp);
    for k := 0 to |cp.userPhysicalMeshIds|
      invariant Wf(s)
      invariant s.controlPlane == cp
      invariant forall mesh :: mesh in s.physicalChipView <==> mesh in cp.userPhysicalMeshIds[..k]
    {
      s := GeneratePhysicalChipView(s, cp.userPhysicalMeshIds[k]);
      assert cp.userPhysicalMeshIds[..k + 1] == cp.userPhysicalMeshIds[..k] + [cp.userPhysicalMeshIds[k]];
    }
    assert cp.userPhysicalMeshIds[..|cp.userPhysicalMeshIds|] == cp.userPhysicalMeshIds;
  }

  // ---------------------------------------------------------------------
  // Lookups and queries
  // ---------------------------------------------------------------------

  /** `get_chip_coords_from_physical_id`, with `validate_mesh_id` and
      `validate_physical_chip_id` in front of it. */
  function GetChipCoordsFromPhysicalId(s: Meshes, mesh: MeshId, physicalChipId: ChipId): (r: Result<Coords>)
    ensures mesh !in s.physicalChipCoords ==> r == Err(UnknownMesh(mesh))
    ensures mesh in s.physicalChipCoords && physicalChipId !in s.physicalChipCoords[mesh] ==>
              r == Err(UnknownChip(mesh, physicalChipId))
    ensures r.Ok? <==> mesh in s.physicalChipCoords && physicalChipId in s.physicalChipCoords[mesh]
    ensures r.Ok? ==> r.value == s.physicalChipCoords[mesh][physicalChipId]
  {
    if mesh !in s.physicalChipCoords then Err(UnknownMesh(mesh))
    else if physicalChipId !in s.physicalChipCoords[mesh] then Err(UnknownChip(mesh, physicalChipId))
    else Ok(s.physicalChipCoords[mesh][physicalChipId])
  }

  /** `get_chip_coords_from_logical_id`: the control plane names the
      physical chip, whose stored pair is then looked up with the same two
      checks. */
  function GetChipCoordsFromLogicalId(s: Meshes, mesh: MeshId, logicalChipId: nat): (r: Result<Coords>)
    ensures var chip := PhysicalId(s.controlPlane, mesh, logicalChipId);
            && (mesh !in s.physicalChipCoords ==> r == Err(UnknownMesh(mesh)))
            && (mesh in s.physicalChipCoords && chip !in s.physicalChipCoords[mesh] ==> r == Err(UnknownChip(mesh, chip)))
            && (r.Ok? <==> mesh in s.physicalChipCoords && chip in s.physicalChipCoords[mesh])
            && (r.Ok? ==> r.value == s.physicalChipCoords[mesh][chip])
  {
    GetChipCoordsFromPhysicalId(s, mesh, PhysicalId(s.controlPlane, mesh, logicalChipId))
  }

  /** `chips.erase(std::remove(chips.begin(), chips.end(), x), chips.end())`:
      every copy of x goes, everything else stays, in order (the order is stated by
      `RemoveAllAppend`). */
  function RemoveAll<T(==)>(xs: seq<T>, x: T): (r: seq<T>)
    ensures x !in r
    ensures multiset(r) == multiset(xs)[x := 0]
    ensures x !in xs ==> r == xs
  {
    if |xs| == 0 then []
    else
      assert xs == [xs[0]] + xs[1..];
      if xs[0] == x then RemoveAll(xs[1..], x)
      else [xs[0]] + RemoveAll(xs[1..], x)
  }

  /** What the same-row query needs to index safely once both lookups pass. */
  predicate RowQueryInBounds(s: Meshes, physicalChipId: ChipId) {
    var mesh := MeshOf(s, physicalChipId);
    mesh in s.physicalChipCoords && physicalChipId in s.physicalChipCoords[mesh] ==>
      && mesh in s.physicalChipView
      && s.physicalChipCoords[mesh][physicalChipId].chipRow < |s.physicalChipView[mesh]|
  }

  /** `get_other_chips_on_same_row`, as written: the grid row selected is the
      one numbered by the first stored coordinate (the chip's column). */
  function OtherChipsOnSameRow(s: Meshes, physicalChipId: ChipId): (r: Result<seq<ChipId>>)
    requires RowQueryInBounds(s, physicalChipId)
    ensures var lookup := GetChipCoordsFromPhysicalId(s, MeshOf(s, physicalChipId), physicalChipId);
            && (lookup.Err? ==> r == Err(lookup.error))
            && (lookup.Ok? ==>
                  && r.Ok? && physicalChipId !in r.value
                  && r.value == RemoveAll(s.physicalChipView[MeshOf(s, physicalChipId)][lookup.value.chipRow], physicalChipId))
  {
    var mesh := MeshOf(s, physicalChipId);
    var coords :- GetChipCoordsFromPhysicalId(s, mesh, physicalChipId);
    Ok(RemoveAll(s.physicalChipView[mesh][coords.chipRow], physicalChipId))
  }

  /** The number of rows the dims map records for a mesh (a missing entry
      reads as a default-constructed zero). */
  function NumRowsRecorded(s: Meshes, mesh: MeshId): u32 {
    if mesh in s.physicalMeshDims then s.physicalMeshDims[mesh].atRowIdx else 0
  }

  predicate ColumnInBounds(view: map<MeshId, seq<seq<ChipId>>>, mesh: MeshId, numRows: nat, col: nat) {
    numRows > 0 ==>
      && mesh in view
      && numRows <= |view[mesh]|
      && forall i :: 0 <= i < numRows ==> col < |view[mesh][i]|
  }

  /** Column `col` of the first `numRows` grid rows, top to bottom. */
  function ColumnOf(view: map<MeshId, seq<seq<ChipId>>>, mesh: MeshId, numRows: nat, col: nat): (r: seq<ChipId>)
    requires ColumnInBounds(view, mesh, numRows, col)
    ensures |r| == numRows
    ensures forall i :: 0 <= i < numRows ==> r[i] == view[mesh][i][col]
  {
    seq(numRows, i requires 0 <= i < numRows => view[mesh][i][col])
  }

  predicate ColQueryInBounds(s: Meshes, physicalChipId: ChipId) {
    var mesh := MeshOf(s, physicalChipId);
    mesh in s.physicalChipCoords && physicalChipId in s.physicalChipCoords[mesh] ==>
      ColumnInBounds(s.physicalChipView, mesh, NumRowsRecorded(s, mesh),
                     s.physicalChipCoords[mesh][physicalChipId].chipCol)
  }

  /** `get_other_chips_on_same_col`, as written: the column read is the one
      numbered by the second stored coordinate (the chip's row). */
  function OtherChipsOnSameCol(s: Meshes, physicalChipId: ChipId): (r: Result<seq<ChipId>>)
    requires ColQueryInBounds(s, physicalChipId)
    ensures var mesh := MeshOf(s, physicalChipId);
            var lookup := GetChipCoordsFromPhysicalId(s, mesh, physicalChipId);
            && (lookup.Err? ==> r == Err(lookup.error))
            && (lookup.Ok? ==>
                  && r.Ok? && physicalChipId !in r.value && |r.value| <= NumRowsRecorded(s, mesh)
                  && r.value == RemoveAll(ColumnOf(s.physicalChipView, mesh, NumRowsRecorded(s, mesh), lookup.value.chipCol),
                                          physicalChipId))
  {
    var mesh := MeshOf(s, physicalChipId);
    var coords :- GetChipCoordsFromPhysicalId(s, mesh, physicalChipId);
    var chips := ColumnOf(s.physicalChipView, mesh, NumRowsRecorded(s, mesh), coords.chipCol);
    assert |multiset(RemoveAll(chips, physicalChipId))| <= |multiset(chips)|;
    Ok(RemoveAll(chips, physicalChipId))
  }

  /** The same-row query as evidently intended: the row numbered by the
      chip's row index (the second stored coordinate). */
  predicate IntendedRowQueryInBounds(s: Meshes, physicalChipId: ChipId) {
    var mesh := MeshOf(s, physicalChipId);
    mesh in s.physicalChipCoords && physicalChipId in s.physicalChipCoords[mesh] ==>
      && mesh in s.physicalChipView
      && s.physicalChipCoords[mesh][physicalChipId].chipCol < |s.physicalChipView[mesh]|
  }

  function IntendedOtherChipsOnSameRow(s: Meshes, physicalChipId: ChipId): (r: Result<seq<ChipId>>)
    requires IntendedRowQueryInBounds(s, physicalChipId)
    ensures var lookup := GetChipCoordsFromPhysicalId(s, MeshOf(s, physicalChipId), physicalChipId);
            && (lookup.Err? ==> r == Err(lookup.error))
            && (lookup.Ok? ==> r.Ok? && physicalChipId !in r.value)
  {
    var mesh := MeshOf(s, physicalChipId);
    var coords :- GetChipCoordsFromPhysicalId(s, mesh, physicalChipId);
    Ok(RemoveAll(s.physicalChipView[mesh][coords.chipCol], physicalChipId))
  }

  /** The same-column query as evidently intended: the column numbered by
      the chip's column index (the first stored coordinate). */
  predicate IntendedColQueryInBounds(s: Meshes, physicalChipId: ChipId) {
    var mesh := MeshOf(s, physicalChipId);
    mesh in s.physicalChipCoords && physicalChipId in s.physicalChipCoords[mesh] ==>
      ColumnInBounds(s.physicalChipView, mesh, NumRowsRecorded(s, mesh),
                     s.physicalChipCoords[mesh][physicalChipId].chipRow)
  }

  function IntendedOtherChipsOnSameCol(s: Meshes, physicalChipId: ChipId): (r: Result<seq<ChipId>>)
    requires IntendedColQueryInBounds(s, physicalChipId)
    ensures var lookup := GetChipCoordsFromPhysicalId(s, MeshOf(s, physicalChipId), physicalChipId);
            && (lookup.Err? ==> r == Err(lookup.error))
            && (lookup.Ok? ==> r.Ok? && physicalChipId !in r.value)
  {
    var mesh := MeshOf(s, physicalChipId);
    var coords :- GetChipCoordsFromPhysicalId(s, mesh, physicalChipId);
    Ok(RemoveAll(ColumnOf(s.physicalChipView, mesh, NumRowsRecorded(s, mesh), coords.chipRow), physicalChipId))
  }

  // ---------------------------------------------------------------------
  // Generation helpers
  // ---------------------------------------------------------------------

  lemma IdsBelowStep(cp: ControlPlane, mesh: MeshId, k: nat)
    ensures IdsBelow(cp, mesh, k + 1) == IdsBelow(cp, mesh, k) + {PhysicalId(cp, mesh, k)}
  {
    assert PhysicalId(cp, mesh, k) in IdsBelow(cp, mesh, k + 1);
  }

  /** Entering logical chip k at row i, column j keeps every earlier entry's
      placement facts, with the bound moved to k + 1. */
  lemma PlacementStep(c: map<ChipId, Coords>, c': map<ChipId, Coords>, cp: ControlPlane, mesh: MeshId,
                      numRows: u32, numCols: u32, k: nat, k': nat, i: nat, j: nat)
    requires i < numRows && j < numCols && k == i * numCols + j && k' == k + 1
    requires c' == c[PhysicalId(cp, mesh, k) := Coords(j, i)]
    requires forall l: nat :: l < k ==> LastPlacement(c, cp, mesh, numRows, numCols, l, k)
    ensures forall l: nat :: l < k' ==> LastPlacement(c', cp, mesh, numRows, numCols, l, k')
  {
    var p := PhysicalId(cp, mesh, k);
    assert LogicalOf(Coords(j, i), numCols) == k;
    forall l: nat | l < k'
      ensures LastPlacement(c', cp, mesh, numRows, numCols, l, k')
    {
      if PhysicalId(cp, mesh, l) != p {
        assert LastPlacement(c, cp, mesh, numRows, numCols, l, k);
      }
    }
  }

  /** A cell inside the grid has a logical id inside the mesh. */
  lemma RowMajorBelow(i: nat, j: nat, numRows: nat, numCols: nat)
    requires i < numRows && j < numCols
    ensures i * numCols + j < numRows * numCols
  {
    MulMonotone(i + 1, numRows, numCols);
    assert (i + 1) * numCols == i * numCols + numCols;
  }

  /** Row-major numbering preserves the order of rows. */
  lemma RowMajorOrder(a: nat, b: nat, c: nat, d: nat, numCols: nat)
    requires b < numCols
    ensures a < c ==> a * numCols + b < c * numCols + d
  {
    if a < c {
      MulMonotone(a + 1, c, numCols);
      assert (a + 1) * numCols == a * numCols + numCols;
    }
  }

  /** Row-major numbering is one-to-one on cells. */
  lemma RowMajorUnique(a: nat, b: nat, c: nat, d: nat, numCols: nat)
    requires b < numCols && d < numCols
    requires a * numCols + b == c * numCols + d
    ensures a == c && b == d
  {
    RowMajorOrder(a, b, c, d, numCols);
    RowMajorOrder(c, d, a, b, numCols);
  }

  /** Distinct ids make the logical -> physical map one-to-one. */
  lemma DistinctInjective(cp: ControlPlane, mesh: MeshId, n: nat, x: nat, y: nat)
    requires DistinctPhysicalIds(cp, mesh, n)
    requires x < n && y < n && PhysicalId(cp, mesh, x) == PhysicalId(cp, mesh, y)
    ensures x == y
  {
  }

  lemma {:induction false} IdsBelowCardinality(cp: ControlPlane, mesh: MeshId, k: nat)
    requires DistinctPhysicalIds(cp, mesh, k)
    ensures |IdsBelow(cp, mesh, k)| == k
  {
    if k == 0 {
      assert IdsBelow(cp, mesh, 0) == {};
    } else {
      IdsBelowCardinality(cp, mesh, k - 1);
      IdsBelowStep(cp, mesh, k - 1);
      assert PhysicalId(cp, mesh, k - 1) !in IdsBelow(cp, mesh, k - 1);
    }
  }

  /** Erase-remove keeps the order of what remains: it distributes over
      concatenation. */
  lemma {:induction false} RemoveAllAppend<T>(a: seq<T>, b: seq<T>, x: T)
    ensures RemoveAll(a + b, x) == RemoveAll(a, x) + RemoveAll(b, x)
  {
    if |a| > 0 {
      assert (a + b)[1..] == a[1..] + b;
      RemoveAllAppend(a[1..], b, x);
    } else {
      assert a + b == b;
    }
  }

  // ---------------------------------------------------------------------
  // Properties of the generated topology
  // ---------------------------------------------------------------------

  /** A successful coordinate lookup names a cell of the mesh's grid that
      holds the chip; read as (column, row) it lies inside the mesh. */
  lemma CoordsLandOnTheirChip(s: Meshes, mesh: MeshId, physicalChipId: ChipId)
    requires Wf(s)
    requires GetChipCoordsFromPhysicalId(s, mesh, physicalChipId).Ok?
    ensures mesh in s.physicalChipView
    ensures var c := GetChipCoordsFromPhysicalId(s, mesh, physicalChipId).value;
            var shape := s.controlPlane.physicalMeshShape(mesh);
            && c.chipCol < shape.numRows && c.chipRow < shape.numCols
            && s.physicalChipView[mesh][c.chipCol][c.chipRow] == physicalChipId
  {
    var cp := s.controlPlane;
    var shape := cp.physicalMeshShape(mesh);
    assert GeneratedMesh(s, mesh);
    var n := shape.numRows * shape.numCols;
    assert physicalChipId in IdsBelow(cp, mesh, n);
    var l: nat :| l < n && PhysicalId(cp, mesh, l) == physicalChipId;
    assert LastPlacement(s.physicalChipCoords[mesh], cp, mesh, shape.numRows, shape.numCols, l, n);
  }

  /** Every cell of a generated grid is found by the coordinate lookup. */
  lemma PlacedChipIsFound(s: Meshes, mesh: MeshId, i: nat, j: nat)
    requires Wf(s) && mesh in s.physicalChipView
    requires i < s.controlPlane.physicalMeshShape(mesh).numRows
    requires j < s.controlPlane.physicalMeshShape(mesh).numCols
    ensures GeneratedMesh(s, mesh)
    ensures GetChipCoordsFromPhysicalId(s, mesh, s.physicalChipView[mesh][i][j]).Ok?
  {
    assert GeneratedMesh(s, mesh);
    CellIsKey(s, mesh, i, j);
  }

  /** The id in cell (i, j) of a generated mesh is the id of logical chip
      i * cols + j, and a key of the mesh's reverse map. */
  lemma CellIsKey(s: Meshes, mesh: MeshId, i: nat, j: nat)
    requires GeneratedMesh(s, mesh)
    requires i < s.controlPlane.physicalMeshShape(mesh).numRows
    requires j < s.controlPlane.physicalMeshShape(mesh).numCols
    ensures var shape := s.controlPlane.physicalMeshShape(mesh);
            && i * shape.numCols + j < shape.numRows * shape.numCols
            && s.physicalChipView[mesh][i][j] == PhysicalId(s.controlPlane, mesh, i * shape.numCols + j)
            && mesh in s.physicalChipCoords
            && s.physicalChipView[mesh][i][j] in s.physicalChipCoords[mesh]
  {
    var cp := s.controlPlane;
    var shape := cp.physicalMeshShape(mesh);
    RowMajorBelow(i, j, shape.numRows, shape.numCols);
    var l := i * shape.numCols + j;
    assert PhysicalId(cp, mesh, l) in IdsBelow(cp, mesh, shape.numRows * shape.numCols);
  }

  /** The coordinate lookup succeeds exactly for the chips placed in the
      mesh's grid. */
  lemma CoordsFoundIffPlaced(s: Meshes, mesh: MeshId, physicalChipId: ChipId)
    requires Wf(s)
    ensures GetChipCoordsFromPhysicalId(s, mesh, physicalChipId).Ok? <==>
              && mesh in s.physicalChipView
              && exists i, j :: 0 <= i < s.controlPlane.physicalMeshShape(mesh).numRows
                             && 0 <= j < s.controlPlane.physicalMeshShape(mesh).numCols
                             && s.physicalChipView[mesh][i][j] == physicalChipId
  {
    if GetChipCoordsFromPhysicalId(s, mesh, physicalChipId).Ok? {
      CoordsLandOnTheirChip(s, mesh, physicalChipId);
      var c := GetChipCoordsFromPhysicalId(s, mesh, physicalChipId).value;
      assert s.physicalChipView[mesh][c.chipCol][c.chipRow] == physicalChipId;
    } else if mesh in s.physicalChipView {
      var shape := s.controlPlane.physicalMeshShape(mesh);
      forall i, j | 0 <= i < shape.numRows && 0 <= j < shape.numCols
        ensures s.physicalChipView[mesh][i][j] != physicalChipId
      {
        PlacedChipIsFound(s, mesh, i, j);
      }
    }
  }

  /** With distinct physical ids, the chip in row i, column j is stored as
      the pair (j, i): column first. */
  lemma CoordsOfDistinctMesh(s: Meshes, mesh: MeshId, i: nat, j: nat)
    requires Wf(s) && mesh in s.physicalChipView
    requires i < s.controlPlane.physicalMeshShape(mesh).numRows
    requires j < s.controlPlane.physicalMeshShape(mesh).numCols
    requires DistinctPhysicalIds(s.controlPlane, mesh,
               s.controlPlane.physicalMeshShape(mesh).numRows * s.controlPlane.physicalMeshShape(mesh).numCols)
    ensures GeneratedMesh(s, mesh)
    ensures GetChipCoordsFromPhysicalId(s, mesh, s.physicalChipView[mesh][i][j]) == Ok(Coords(j, i))
  {
    assert GeneratedMesh(s, mesh);
    CellIsKey(s, mesh, i, j);
    CellStoredAsColumnRow(s, mesh, i, j);
  }

  /** In a generated mesh with distinct ids, the reverse-map entry of cell
      (i, j) is the pair (j, i). */
  lemma CellStoredAsColumnRow(s: Meshes, mesh: MeshId, i: nat, j: nat)
    requires GeneratedMesh(s, mesh) && mesh in s.physicalChipCoords
    requires i < s.controlPlane.physicalMeshShape(mesh).numRows
    requires j < s.controlPlane.physicalMeshShape(mesh).numCols
    requires var shape := s.controlPlane.physicalMeshShape(mesh);
             && i * shape.numCols + j < shape.numRows * shape.numCols
             && DistinctPhysicalIds(s.controlPlane, mesh, shape.numRows * shape.numCols)
    ensures var shape := s.controlPlane.physicalMeshShape(mesh);
            var p := PhysicalId(s.controlPlane, mesh, i * shape.numCols + j);
            p in s.physicalChipCoords[mesh] && s.physicalChipCoords[mesh][p] == Coords(j, i)
  {
    var cp := s.controlPlane;
    var shape := cp.physicalMeshShape(mesh);
    var n := shape.numRows * shape.numCols;
    var l := i * shape.numCols + j;
    assert LastPlacement(s.physicalChipCoords[mesh], cp, mesh, shape.numRows, shape.numCols, l, n);
    var d := s.physicalChipCoords[mesh][PhysicalId(cp, mesh, l)];
    DistinctInjective(cp, mesh, n, LogicalOf(d, shape.numCols), l);
    RowMajorUnique(d.chipCol, d.chipRow, i, j, shape.numCols);
  }

  /** With distinct physical ids, the reverse map has exactly one entry per
      cell of the grid. */
  lemma DistinctMeshCoordsCount(s: Meshes, mesh: MeshId)
    requires Wf(s) && mesh in s.physicalChipCoords
    requires DistinctPhysicalIds(s.controlPlane, mesh,
               s.controlPlane.physicalMeshShape(mesh).numRows * s.controlPlane.physicalMeshShape(mesh).numCols)
    ensures |s.physicalChipCoords[mesh]| ==
              s.controlPlane.physicalMeshShape(mesh).numRows * s.controlPlane.physicalMeshShape(mesh).numCols
  {
    assert GeneratedMesh(s, mesh);
    var shape := s.controlPlane.physicalMeshShape(mesh);
    IdsBelowCardinality(s.controlPlane, mesh, shape.numRows * shape.numCols);
    assert s.physicalChipCoords[mesh].Keys == IdsBelow(s.controlPlane, mesh, shape.numRows * shape.numCols);
  }

  /** Logical id -> stored coordinates -> logical id. In general the lookup
      lands on the last logical id sharing the physical id; with distinct
      ids it comes back to the one asked for. */
  lemma LogicalCoordsRoundTrip(s: Meshes, mesh: MeshId, logicalChipId: nat)
    requires Wf(s) && mesh in s.physicalChipView
    requires logicalChipId < s.controlPlane.physicalMeshShape(mesh).numRows * s.controlPlane.physicalMeshShape(mesh).numCols
    ensures GetChipCoordsFromLogicalId(s, mesh, logicalChipId).Ok?
    ensures var numCols := s.controlPlane.physicalMeshShape(mesh).numCols;
            var back := LogicalOf(GetChipCoordsFromLogicalId(s, mesh, logicalChipId).value, numCols);
            && logicalChipId <= back
            && PhysicalId(s.controlPlane, mesh, back) == PhysicalId(s.controlPlane, mesh, logicalChipId)
    ensures DistinctPhysicalIds(s.controlPlane, mesh,
               s.controlPlane.physicalMeshShape(mesh).numRows * s.controlPlane.physicalMeshShape(mesh).numCols) ==>
              LogicalOf(GetChipCoordsFromLogicalId(s, mesh, logicalChipId).value,
                        s.controlPlane.physicalMeshShape(mesh).numCols) == logicalChipId
  {
    var cp := s.controlPlane;
    var shape := cp.physicalMeshShape(mesh);
    var n := shape.numRows * shape.numCols;
    assert GeneratedMesh(s, mesh);
    assert LastPlacement(s.physicalChipCoords[mesh], cp, mesh, shape.numRows, shape.numCols, logicalChipId, n);
  }

  /** The chip placed in row i, column j of a mesh with distinct ids. */
  ghost predicate PlacedAt(s: Meshes, physicalChipId: ChipId, i: nat, j: nat) {
    var mesh := MeshOf(s, physicalChipId);
    var shape := s.controlPlane.physicalMeshShape(mesh);
    && mesh in s.physicalChipView
    && i < shape.numRows && j < shape.numCols
    && DistinctPhysicalIds(s.controlPlane, mesh, shape.numRows * shape.numCols)
    && |s.physicalChipView[mesh]| == shape.numRows
    && j < |s.physicalChipView[mesh][i]|
    && s.physicalChipView[mesh][i][j] == physicalChipId
  }

  /** In a grid of distinct ids, two cells holding the same chip are the
      same cell. */
  lemma SameIdSameCell(v: seq<seq<ChipId>>, cp: ControlPlane, mesh: MeshId, numRows: nat, numCols: nat,
                       a: nat, b: nat, c: nat, d: nat)
    requires IsChipView(v, cp, mesh, numRows, numCols) && DistinctPhysicalIds(cp, mesh, numRows * numCols)
    requires a < numRows && b < numCols && c < numRows && d < numCols
    requires v[a][b] == v[c][d]
    ensures a == c && b == d
  {
    RowMajorBelow(a, b, numRows, numCols);
    RowMajorBelow(c, d, numRows, numCols);
    DistinctInjective(cp, mesh, numRows * numCols, a * numCols + b, c * numCols + d);
    RowMajorUnique(a, b, c, d, numCols);
  }

  /** In a grid of distinct ids, row r holds the chip of cell (i, j)
      exactly when r == i. */
  lemma ViewRowIff(v: seq<seq<ChipId>>, cp: ControlPlane, mesh: MeshId, numRows: nat, numCols: nat,
                   i: nat, j: nat, r: nat)
    requires IsChipView(v, cp, mesh, numRows, numCols) && DistinctPhysicalIds(cp, mesh, numRows * numCols)
    requires i < numRows && j < numCols && r < numRows
    ensures v[i][j] in v[r] <==> r == i
  {
    if v[i][j] in v[r] {
      var b :| 0 <= b < |v[r]| && v[r][b] == v[i][j];
      SameIdSameCell(v, cp, mesh, numRows, numCols, r, b, i, j);
    }
  }

  /** In a grid of distinct ids, a column c (given as the sequence `col` of
      its cells) holds the chip of cell (i, j) exactly when c == j. */
  lemma ViewColumnIff(v: seq<seq<ChipId>>, cp: ControlPlane, mesh: MeshId, numRows: nat, numCols: nat,
                      i: nat, j: nat, c: nat, col: seq<ChipId>)
    requires IsChipView(v, cp, mesh, numRows, numCols) && DistinctPhysicalIds(cp, mesh, numRows * numCols)
    requires i < numRows && j < numCols && c < numCols
    requires |col| == numRows && forall a :: 0 <= a < numRows ==> col[a] == v[a][c]
    ensures v[i][j] in col <==> c == j
  {
    if v[i][j] in col {
      var a :| 0 <= a < |col| && col[a] == v[i][j];
      SameIdSameCell(v, cp, mesh, numRows, numCols, a, c, i, j);
    } else {
      assert col[i] == v[i][c];
    }
  }

  /** In a mesh with distinct ids, grid row r holds the chip at (i, j)
      exactly when r == i. */
  lemma ChipInRowIffItsRow(s: Meshes, physicalChipId: ChipId, i: nat, j: nat, r: nat)
    requires Wf(s) && PlacedAt(s, physicalChipId, i, j)
    requires r < s.controlPlane.physicalMeshShape(MeshOf(s, physicalChipId)).numRows
    ensures physicalChipId in s.physicalChipView[MeshOf(s, physicalChipId)][r] <==> r == i
  {
    var mesh := MeshOf(s, physicalChipId);
    var shape := s.controlPlane.physicalMeshShape(mesh);
    assert GeneratedMesh(s, mesh);
    ViewRowIff(s.physicalChipView[mesh], s.controlPlane, mesh, shape.numRows, shape.numCols, i, j, r);
  }

  /** In a mesh with distinct ids, grid column c holds the chip at (i, j)
      exactly when c == j. */
  lemma ChipInColumnIffItsColumn(s: Meshes, physicalChipId: ChipId, i: nat, j: nat, c: nat)
    requires Wf(s) && PlacedAt(s, physicalChipId, i, j)
    requires c < s.controlPlane.physicalMeshShape(MeshOf(s, physicalChipId)).numCols
    ensures var mesh := MeshOf(s, physicalChipId);
            ColumnInBounds(s.physicalChipView, mesh, NumRowsRecorded(s, mesh), c)
            && (physicalChipId in ColumnOf(s.physicalChipView, mesh, NumRowsRecorded(s, mesh), c) <==> c == j)
  {
    var mesh := MeshOf(s, physicalChipId);
    var shape := s.controlPlane.physicalMeshShape(mesh);
    assert GeneratedMesh(s, mesh);
    var col := ColumnOf(s.physicalChipView, mesh, NumRowsRecorded(s, mesh), c);
    ViewColumnIff(s.physicalChipView[mesh], s.controlPlane, mesh, shape.numRows, shape.numCols, i, j, c, col);
  }

  /** As written, the same-row query for the chip at (i, j) returns grid row
      j, the row numbered by the chip's column, minus the chip; that row
      contains the chip only on the diagonal i == j. */
  lemma SameRowQueryReadsRowNumberedByColumn(s: Meshes, physicalChipId: ChipId, i: nat, j: nat)
    requires Wf(s) && PlacedAt(s, physicalChipId, i, j)
    requires j < s.controlPlane.physicalMeshShape(MeshOf(s, physicalChipId)).numRows
    ensures RowQueryInBounds(s, physicalChipId)
    ensures var mesh := MeshOf(s, physicalChipId);
            && OtherChipsOnSameRow(s, physicalChipId) == Ok(RemoveAll(s.physicalChipView[mesh][j], physicalChipId))
            && (physicalChipId in s.physicalChipView[mesh][j] <==> i == j)
  {
    var mesh := MeshOf(s, physicalChipId);
    CoordsOfDistinctMesh(s, mesh, i, j);
    ChipInRowIffItsRow(s, physicalChipId, i, j, j);
  }

  /** As written, the same-column query for the chip at (i, j) returns grid
      column i, the column numbered by the chip's row, minus the chip; that
      column contains the chip only on the diagonal i == j. */
  lemma SameColQueryReadsColumnNumberedByRow(s: Meshes, physicalChipId: ChipId, i: nat, j: nat)
    requires Wf(s) && PlacedAt(s, physicalChipId, i, j)
    requires i < s.controlPlane.physicalMeshShape(MeshOf(s, physicalChipId)).numCols
    ensures ColQueryInBounds(s, physicalChipId)
    ensures var mesh := MeshOf(s, physicalChipId);
            var column := ColumnOf(s.physicalChipView, mesh, NumRowsRecorded(s, mesh), i);
            && OtherChipsOnSameCol(s, physicalChipId) == Ok(RemoveAll(column, physicalChipId))
            && (physicalChipId in column <==> i == j)
  {
    var mesh := MeshOf(s, physicalChipId);
    CoordsOfDistinctMesh(s, mesh, i, j);
    ChipInColumnIffItsColumn(s, physicalChipId, i, j, i);
  }

  /** As written, the same-row query for the chip at (i, j) indexes a grid
      row only when j < num_rows: on a mesh with more columns than rows,
      every chip in a column numbered num_rows or above sends the query past
      the last row. */
  lemma RowQueryInBoundsIffColumnBelowRows(s: Meshes, physicalChipId: ChipId, i: nat, j: nat)
    requires Wf(s) && PlacedAt(s, physicalChipId, i, j)
    ensures RowQueryInBounds(s, physicalChipId) <==>
              j < s.controlPlane.physicalMeshShape(MeshOf(s, physicalChipId)).numRows
  {
    var mesh := MeshOf(s, physicalChipId);
    CoordsOfDistinctMesh(s, mesh, i, j);
  }

  /** As written, the same-column query for the chip at (i, j) stays inside
      every row only when i < num_cols: on a mesh with more rows than
      columns, every chip in a row numbered num_cols or above sends the
      query past the end of the rows. */
  lemma ColQueryInBoundsIffRowBelowCols(s: Meshes, physicalChipId: ChipId, i: nat, j: nat)
    requires Wf(s) && PlacedAt(s, physicalChipId, i, j)
    ensures ColQueryInBounds(s, physicalChipId) <==>
              i < s.controlPlane.physicalMeshShape(MeshOf(s, physicalChipId)).numCols
  {
    var mesh := MeshOf(s, physicalChipId);
    CoordsOfDistinctMesh(s, mesh, i, j);
    if i < s.controlPlane.physicalMeshShape(mesh).numCols {
      SameColQueryReadsColumnNumberedByRow(s, physicalChipId, i, j);
    } else {
      assert !(i < |s.physicalChipView[mesh][0]|);
    }
  }

  /** In a grid of distinct ids, the chip of cell (i, j) occurs in its row
      at column j only. */
  lemma ViewRowOnce(v: seq<seq<ChipId>>, cp: ControlPlane, mesh: MeshId, numRows: nat, numCols: nat,
                    i: nat, j: nat)
    requires IsChipView(v, cp, mesh, numRows, numCols) && DistinctPhysicalIds(cp, mesh, numRows * numCols)
    requires i < numRows && j < numCols
    ensures forall b :: 0 <= b < |v[i]| && b != j ==> v[i][b] != v[i][j]
  {
    forall b | 0 <= b < |v[i]| && v[i][b] == v[i][j]
      ensures b == j
    {
      SameIdSameCell(v, cp, mesh, numRows, numCols, i, b, i, j);
    }
  }

  /** In a grid of distinct ids, the chip of cell (i, j) occurs in column j
      (given as the sequence `col` of its cells) at row i only. */
  lemma ViewColumnOnce(v: seq<seq<ChipId>>, cp: ControlPlane, mesh: MeshId, numRows: nat, numCols: nat,
                       i: nat, j: nat, col: seq<ChipId>)
    requires IsChipView(v, cp, mesh, numRows, numCols) && DistinctPhysicalIds(cp, mesh, numRows * numCols)
    requires i < numRows && j < numCols
    requires |col| == numRows && forall a :: 0 <= a < numRows ==> col[a] == v[a][j]
    ensures forall a :: 0 <= a < |col| && a != i ==> col[a] != v[i][j]
  {
    forall a | 0 <= a < |col| && col[a] == v[i][j]
      ensures a == i
    {
      SameIdSameCell(v, cp, mesh, numRows, numCols, a, j, i, j);
    }
  }

  /** Corrected same-row query: every other chip of the chip's own row, in
      column order; num_cols - 1 of them. */
  lemma IntendedSameRowQueryIsRowPeers(s: Meshes, physicalChipId: ChipId, i: nat, j: nat)
    requires Wf(s) && PlacedAt(s, physicalChipId, i, j)
    ensures IntendedRowQueryInBounds(s, physicalChipId)
    ensures var mesh := MeshOf(s, physicalChipId);
            var row := s.physicalChipView[mesh][i];
            && IntendedOtherChipsOnSameRow(s, physicalChipId) == Ok(row[..j] + row[j + 1..])
            && |row[..j] + row[j + 1..]| == s.controlPlane.physicalMeshShape(mesh).numCols - 1
  {
    var mesh := MeshOf(s, physicalChipId);
    var shape := s.controlPlane.physicalMeshShape(mesh);
    CoordsOfDistinctMesh(s, mesh, i, j);
    var row := s.physicalChipView[mesh][i];
    ViewRowOnce(s.physicalChipView[mesh], s.controlPlane, mesh, shape.numRows, shape.numCols, i, j);
    DropOnlyOccurrence(row, j, physicalChipId);
  }

  /** Corrected same-column query: every other chip of the chip's own
      column, in row order; num_rows - 1 of them. */
  lemma IntendedSameColQueryIsColumnPeers(s: Meshes, physicalChipId: ChipId, i: nat, j: nat)
    requires Wf(s) && PlacedAt(s, physicalChipId, i, j)
    ensures IntendedColQueryInBounds(s, physicalChipId)
    ensures var mesh := MeshOf(s, physicalChipId);
            var column := ColumnOf(s.physicalChipView, mesh, NumRowsRecorded(s, mesh), j);
            && IntendedOtherChipsOnSameCol(s, physicalChipId) == Ok(column[..i] + column[i + 1..])
            && |column[..i] + column[i + 1..]| == s.controlPlane.physicalMeshShape(mesh).numRows - 1
  {
    var mesh := MeshOf(s, physicalChipId);
    var shape := s.controlPlane.physicalMeshShape(mesh);
    CoordsOfDistinctMesh(s, mesh, i, j);
    assert ColumnInBounds(s.physicalChipView, mesh, NumRowsRecorded(s, mesh), j);
    var column := ColumnOf(s.physicalChipView, mesh, NumRowsRecorded(s, mesh), j);
    ViewColumnOnce(s.physicalChipView[mesh], s.controlPlane, mesh, shape.numRows, shape.numCols, i, j, column);
    DropOnlyOccurrence(column, i, physicalChipId);
  }

  /** Removing an element that occurs once, at position k, drops just that
      position. */
  lemma DropOnlyOccurrence(xs: seq<ChipId>, k: nat, x: ChipId)
    requires k < |xs| && xs[k] == x
    requires forall a :: 0 <= a < |xs| && a != k ==> xs[a] != x
    ensures RemoveAll(xs, x) == xs[..k] + xs[k + 1..]
  {
    assert xs == xs[..k] + ([x] + xs[k + 1..]);
    RemoveAllAppend(xs[..k], [x] + xs[k + 1..], x);
    RemoveAllAppend([x], xs[k + 1..], x);
    assert x !in xs[..k];
    assert x !in xs[k + 1..];
  }

  // ---------------------------------------------------------------------
  // A 2 x 2 mesh on which the as-written queries visibly miss
  // ---------------------------------------------------------------------

  /** One user mesh (id 0) of 2 x 2 chips with physical ids 10 + logical id. */
  function ExampleControlPlane(): ControlPlane {
    ControlPlane([0], m => MeshShape(2, 2), (m, l) => 10 + l, p => 0)
  }

  /** The state generation leaves for `ExampleControlPlane`. */
  function ExampleMeshes(): Meshes {
    Meshes(
      map[0 := [[10, 11], [12, 13]]],
      map[0 := map[10 := Coords(0, 0), 11 := Coords(1, 0), 12 := Coords(0, 1), 13 := Coords(1, 1)]],
      map[0 := Dims(2, 2)],
      map[0 := Dims(2, 2)],
      ExampleControlPlane())
  }

  /** The example state is one generation leaves: a well-formed grid of
      the example control plane. */
  lemma ExampleMeshesWf()
    ensures Wf(ExampleMeshes())
  {
    var s := ExampleMeshes();
    var cp := s.controlPlane;
    var c := s.physicalChipCoords[0];
    assert IdsBelow(cp, 0, 4) == {10, 11, 12, 13} by {
      assert PhysicalId(cp, 0, 0) == 10 && PhysicalId(cp, 0, 1) == 11;
      assert PhysicalId(cp, 0, 2) == 12 && PhysicalId(cp, 0, 3) == 13;
    }
    forall l: nat | l < 4
      ensures LastPlacement(c, cp, 0, 2, 2, l, 4)
    {
      assert PhysicalId(cp, 0, l) == 10 + l;
      assert LogicalOf(c[10 + l], 2) == l;
    }
    assert IsChipCoords(c, cp, 0, 2, 2);
    assert IsChipView(s.physicalChipView[0], cp, 0, 2, 2);
    assert GeneratedMesh(s, 0);
  }

  /** Chip 11 is looked up in mesh 0 as the pair (1, 0); the dims map
      records two rows. */
  lemma ExampleLookup()
    ensures MeshOf(ExampleMeshes(), 11) == 0
    ensures GetChipCoordsFromPhysicalId(ExampleMeshes(), 0, 11) == Ok(Coords(1, 0))
    ensures NumRowsRecorded(ExampleMeshes(), 0) == 2
  {
  }

  /** The two rows and two columns of the example grid. */
  lemma ExampleLines()
    ensures ExampleMeshes().physicalChipView[0][0] == [10, 11]
    ensures ExampleMeshes().physicalChipView[0][1] == [12, 13]
    ensures ColumnOf(ExampleMeshes().physicalChipView, 0, 2, 0) == [10, 12]
    ensures ColumnOf(ExampleMeshes().physicalChipView, 0, 2, 1) == [11, 13]
  {
  }

  /** Chip 11 removed from the example's first row. */
  lemma ExampleRowRemoval()
    ensures RemoveAll([10, 11], 11) == [10]
  {
    RemoveAllAppend([10], [11], 11);
    assert [10, 11] == [10] + [11];
  }

  /** Chip 11 removed from the example's second column. */
  lemma ExampleColumnRemoval()
    ensures RemoveAll([11, 13], 11) == [13]
  {
    RemoveAllAppend([11], [13], 11);
    assert [11, 13] == [11] + [13];
  }

  /** Chip 11 removed from the two lines of the example grid that miss it. */
  lemma ExampleRemovalsMiss()
    ensures RemoveAll([12, 13], 11) == [12, 13]
    ensures RemoveAll([10, 12], 11) == [10, 12]
  {
    assert 11 !in [12, 13];
    assert 11 !in [10, 12];
  }

  /** Chip 11 sits in row 0, column 1 of the example, with chip 10 as its
      only row peer; the as-written row query returns row 1 instead. */
  lemma SameRowQueryMissesOffDiagonal()
    ensures ExampleMeshes().physicalChipView[0][0][1] == 11
    ensures RowQueryInBounds(ExampleMeshes(), 11) && OtherChipsOnSameRow(ExampleMeshes(), 11) == Ok([12, 13])
    ensures IntendedRowQueryInBounds(ExampleMeshes(), 11) && IntendedOtherChipsOnSameRow(ExampleMeshes(), 11) == Ok([10])
  {
    ExampleLookup();
    ExampleLines();
    ExampleRowRemoval();
    ExampleColumnRemoval();
    ExampleRemovalsMiss();
  }

  /** Chip 11 has chip 13 as its only column peer; the as-written column
      query returns column 0 instead. */
  lemma SameColQueryMissesOffDiagonal()
    ensures ColQueryInBounds(ExampleMeshes(), 11) && OtherChipsOnSameCol(ExampleMeshes(), 11) == Ok([10, 12])
    ensures IntendedColQueryInBounds(ExampleMeshes(), 11) && IntendedOtherChipsOnSameCol(ExampleMeshes(), 11) == Ok([13])
  {
    ExampleLookup();
    ExampleLines();
    ExampleRowRemoval();
    ExampleColumnRemoval();
    ExampleRemovalsMiss();
  }
}
