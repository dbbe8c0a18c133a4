/** The wireframe renderer: a mesh model that loads its faces on demand and
    draws the three edges of every face into an 800 x 800 image. Faces carry
    vertices already projected to integer screen coordinates. */
module RenderTask {
  import opened Canvas
  import opened Bresenham

  datatype Option<T> = None | Some(value: T)

  /** The canvas size of every rendered image. */
  const Width := 800
  const Height := 800

  /** A triangle given by its three projected vertices. */
  datatype Face = Face(v0: Point, v1: Point, v2: Point)
  {
    /** Corner `j` of the face, as the model's vert(i, j) returns it. */
    function Vert(j: int): Point
      requires 0 <= j < 3
    {
      if j == 0 then v0 else if j == 1 then v1 else v2
    }
  }

  type Mesh = seq<Face>

  /** A line segment between two screen points. */
  datatype Segment = Segment(from: Point, to: Point)

  /** Edge `j` of a face: from corner j to corner (j + 1) mod 3. */
  function FaceEdge(f: Face, j: int): Segment
    requires 0 <= j < 3
  {
    Segment(f.Vert(j), f.Vert((j + 1) % 3))
  }

  /** The three edges of a face in drawing order. */
  function FaceEdges(f: Face): seq<Segment>
  {
    [FaceEdge(f, 0), FaceEdge(f, 1), FaceEdge(f, 2)]
  }

  /** Every edge the renderer draws, face by face. */
  function Edges(mesh: Mesh): seq<Segment>
  {
    if mesh == [] then [] else Edges(mesh[..|mesh| - 1]) + FaceEdges(mesh[|mesh| - 1])
  }

  /** The pixels DrawLine writes for one segment. */
  function SegmentPixels(e: Segment): seq<Point>
  {
    LinePixels(e.from.x, e.from.y, e.to.x, e.to.y)
  }

  /** The pixels written when the segments are drawn one after another. */
  function Covered(es: seq<Segment>): seq<Point>
  {
    if es == [] then [] else Covered(es[..|es| - 1]) + SegmentPixels(es[|es| - 1])
  }

  /** The pixels of the wireframe of a mesh. */
  function Wireframe(mesh: Mesh): seq<Point>
  {
    Covered(Edges(mesh))
  }

  /** Drawing edge j of a face after its first j edges. */
  lemma CoveredNextEdge(before: seq<Segment>, f: Face, j: int)
    requires 0 <= j < 3
    ensures Covered(before + FaceEdges(f)[..j + 1]) == Covered(before + FaceEdges(f)[..j]) + SegmentPixels(FaceEdge(f, j))
  {
    var done := before + FaceEdges(f)[..j];
    assert before + FaceEdges(f)[..j + 1] == done + [FaceEdge(f, j)];
    assert (done + [FaceEdge(f, j)])[..|done|] == done;
  }

  /** Drawing face i after faces 0 to i - 1. */
  lemma EdgesNextFace(mesh: Mesh, i: int)
    requires 0 <= i < |mesh|
    ensures Edges(mesh[..i + 1]) == Edges(mesh[..i]) + FaceEdges(mesh[i])[..3]
  {
    assert FaceEdges(mesh[i])[..3] == FaceEdges(mesh[i]);
    assert mesh[..i + 1][..i] == mesh[..i];
  }

  /** Face i contributes edges 3i, 3i+1, 3i+2, and edge 3i+j runs from
      corner j to corner (j + 1) mod 3 of face i. */
  lemma {:induction false} EdgesOfMesh(mesh: Mesh)
    ensures |Edges(mesh)| == 3 * |mesh|
    ensures forall i, j :: 0 <= i < |mesh| && 0 <= j < 3 ==> Edges(mesh)[3 * i + j] == FaceEdge(mesh[i], j)
  {
    if mesh != [] {
      var init := mesh[..|mesh| - 1];
      EdgesOfMesh(init);
      forall i, j | 0 <= i < |mesh| && 0 <= j < 3
        ensures Edges(mesh)[3 * i + j] == FaceEdge(mesh[i], j)
      {
        if i < |init| {
          assert mesh[i] == init[i];
        }
      }
    }
  }

  /** A pixel is covered exactly when some segment's line contains it. */
  lemma {:induction false} CoveredMembers(es: seq<Segment>, p: Point)
    ensures p in Covered(es) <==> exists k :: 0 <= k < |es| && p in SegmentPixels(es[k])
  {
    if es != [] {
      var init := es[..|es| - 1];
      CoveredMembers(init, p);
      if p in Covered(init) {
        var k :| 0 <= k < |init| && p in SegmentPixels(init[k]);
        assert es[k] == init[k];
      }
      if exists k :: 0 <= k < |es| && p in SegmentPixels(es[k]) {
        var k :| 0 <= k < |es| && p in SegmentPixels(es[k]);
        if k < |init| {
          assert es[k] == init[k];
        }
      }
    }
  }

  /** Edge k of the mesh is edge k mod 3 of face k div 3. */
  lemma EdgeIndex(mesh: Mesh, k: int)
    requires 0 <= k < |Edges(mesh)|
    ensures 0 <= k / 3 < |mesh| && Edges(mesh)[k] == FaceEdge(mesh[k / 3], k % 3)
  {
    EdgesOfMesh(mesh);
    assert k == 3 * (k / 3) + k % 3;
  }

  /** A pixel belongs to the wireframe exactly when it lies on edge j of
      some face i, for j in 0, 1, 2. */
  lemma WireframeMembers(mesh: Mesh, p: Point)
    ensures p in Wireframe(mesh) <==>
      exists i, j :: 0 <= i < |mesh| && 0 <= j < 3 && p in SegmentPixels(FaceEdge(mesh[i], j))
  {
    var es := Edges(mesh);
    EdgesOfMesh(mesh);
    CoveredMembers(es, p);
    if p in Wireframe(mesh) {
      var k :| 0 <= k < |es| && p in SegmentPixels(es[k]);
      EdgeIndex(mesh, k);
      assert p in SegmentPixels(FaceEdge(mesh[k / 3], k % 3));
    } else {
      forall i, j | 0 <= i < |mesh| && 0 <= j < 3
        ensures p !in SegmentPixels(FaceEdge(mesh[i], j))
      {
        assert es[3 * i + j] == FaceEdge(mesh[i], j);
      }
    }
  }

  /** The image shows white exactly at the pixels of `pts` and `background`
      everywhere else. */
  ghost predicate Shows(image: Image, pts: seq<Point>, background: Color)
    reads image, image.cells
  {
    image.Valid() &&
    forall i, j :: 0 <= i < image.width && 0 <= j < image.height ==>
      image.cells[i, j] == (if Point(i, j) in pts then White else background)
  }

  /** The OBJ loader as the file system stands at the time of a call:
      Some(mesh) when `Model(path)` succeeds, None when it throws. Every
      operation that loads takes it as a parameter, so a load that failed
      once may succeed on a later call. */
  type Loader = string -> Option<Mesh>

  class MeshModel {
    const modelPath: string
    /** The loaded model, None while no load has succeeded. */
    var model: Option<Mesh>

    /** Records the path and attempts a first load. */
    constructor (modelPath: string, load: Loader)
      ensures this.modelPath == modelPath
      ensures model == (if modelPath == [] then None else load(modelPath))
    {
      this.modelPath := modelPath;
      model := None;
      new;
      var loaded := LoadModel(modelPath, load);
    }

    /** Loads the model at `modelPath`; fails on an empty path or when the
        loader fails, leaving any earlier model in place. */
    method LoadModel(modelPath: string, load: Loader) returns (ok: bool)
      modifies this`model
      ensures ok <==> modelPath != [] && load(modelPath).Some?
      ensures model == (if ok then load(modelPath) else old(model))
    {
      if modelPath == [] {
        return false;
      }
      var loaded := load(modelPath);
      if loaded.None? {
        return false;
      }
      model := loaded;
      return true;
    }

    /** Renders the wireframe of the model. None stands for returning false:
        an empty file name, or no model and a failed load; no image is drawn
        then. Some(image) is the image handed to the encoder. */
    method WriteMeshIntoFile(fileName: string, load: Loader) returns (written: Option<Image>)
      modifies this`model
      ensures written.None? <==>
        fileName == [] || (old(model).None? && (modelPath == [] || load(modelPath).None?))
      ensures model == (if fileName != [] && old(model).None? && modelPath != [] then load(modelPath) else old(model))
      ensures written.Some? ==>
        model.Some? && fresh(written.value) && fresh(written.value.cells) &&
        written.value.width == Width && written.value.height == Height &&
        Shows(written.value, Wireframe(model.value), Blank)
    {
      if fileName == [] {
        return None;
      }
      if model.None? {
        var ok := LoadModel(modelPath, load);
        if !ok {
          return None;
        }
      }
      var mesh := model.value;
      var image := new Image(Width, Height, Blank);
      var faces := |mesh|;
      for i := 0 to faces
        invariant model == Some(mesh)
        invariant Shows(image, Covered(Edges(mesh[..i])), Blank)
      {
        ghost var before := Edges(mesh[..i]);
        assert before + FaceEdges(mesh[i])[..0] == before;
        for j := 0 to 3
          invariant model == Some(mesh)
          invariant Shows(image, Covered(before + FaceEdges(mesh[i])[..j]), Blank)
        {
          var vert0 := mesh[i].Vert(j);
          var vert1 := mesh[i].Vert((j + 1) % 3);
          DrawLine(vert0.x, vert0.y, vert1.x, vert1.y, image);
          CoveredNextEdge(before, mesh[i], j);
        }
        EdgesNextFace(mesh, i);
      }
      assert mesh[..faces] == mesh;
      written := Some(image);
    }
  }
}
