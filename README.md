# Wireframe rasterizer of RendererDemo, modelled in Dafny

This project models the wireframe path of the RendererDemo software
renderer. `MeshModel::WriteMeshIntoFile` takes every triangular face of a
loaded mesh and draws its three edges into an 800 x 800 image. It draws each
edge with the integer Bresenham rasterizer `DrawLine`. The model has three
modules:

- `Canvas` (canvas.dfy) is the pixel sink: a `width x height` grid of
  four-channel colours (`Image`, over an `array2<Color>`). Its `Set`
  ignores coordinates that fall off the grid.
- `Bresenham` (bresenham.dfy) holds `DrawLine` as an imperative method with
  a `while` loop over the image. Beside it are:
  - the pure companion `LinePixels`, which lists the pixels the loop writes,
    in order. It is built from `Normalize` (the two swaps), `Step` (one
    update of the error term) and `Walk` (the loop).
  - an independent closed-form reference `LineReference`, proved equal to
    `LinePixels`. At major step k it puts the minor coordinate at
    round(|dy|·k/dx), with halves rounded down. This value is
    `Offset(k, dx, |dy|) = (2|dy|k + dx - 1) div 2dx`.
  - the lemmas that state the properties of the drawn line.
- `RenderTask` (mesh_model.dfy) holds the `MeshModel` class (model path and
  loaded model) with `LoadModel` and `WriteMeshIntoFile`. It also
  holds the edge enumeration `Edges` and the covered pixels `Wireframe` that
  specify them.

The doubled error term is `error2`. The loop keeps it equal to
`2|dy|·k − 2dx·m`, where k is the number of steps taken and m is the minor
offset. It always lies in (−dx, dx], and it is 0 when dx = 0. That bound is
exactly what makes m the rounded ideal offset (`OffsetCharacterization`).
Connectivity, the endpoints and the bounding box all follow from this.

Mesh faces enter the model as vertices already projected to integer screen
points. The OBJ loader is a `Loader`, a function from a path to
`Option<Mesh>`. `None` stands for `Model(path)` throwing. The constructor,
`LoadModel` and `WriteMeshIntoFile` each take the loader as it stands at the
time of the call. So a load that failed in the constructor may succeed on the
retry at the start of `WriteMeshIntoFile`, as it can in the program.
Integers are mathematical.

`Canvas.Image.constructor`, `Canvas.Image.Set`, `Bresenham.DrawLine` and the
`RenderTask.MeshModel` members change state. Their `ensures` clauses state
the whole new state in terms of `LinePixels` and `Wireframe`, and the lemmas
below state what those two functions contain.

## Model

| member | source | states |
|---|---|---|
| `Bresenham.Normalize` | Source/RenderTask/MeshModel.cpp:24-34 | after the steep transpose and the endpoint swap, x increases and \|dy\| <= dx. dx equals max(\|x1-x0\|, \|y1-y0\|). The line is steep exactly when \|x1-x0\| < \|y1-y0\|. Transposed back, the two normalised endpoints are the original endpoints, in the same or the swapped order |
| `Bresenham.Step` | Source/RenderTask/MeshModel.cpp:50-54 | one iteration's update moves y by 0 or by sign(dy). On a normalised line it keeps the doubled error term in (−dx, dx], and at 0 when dx = 0. `StepKeepsErrorForm` ties the new y to the rounded offset of the next step |
| `Bresenham.Walk` | Source/RenderTask/MeshModel.cpp:44-56 | the pixels the loop writes from a given loop state. `WalkFollowsReference` proves that, from the state at step k, they are the closed-form reference pixels for steps k to dx |
| `Bresenham.LinePixels` | Source/RenderTask/MeshModel.cpp:21-57 | the pixel sequence DrawLine writes. `LineMatchesReference` proves it equal to `LineReference`, and the `Line…` lemmas below state its count, endpoints, connectivity, distinctness, bounding box and direction invariance |
| `Bresenham.DrawLine` | Source/RenderTask/MeshModel.cpp:21-57 | afterwards every on-grid pixel in `LinePixels(x0,y0,x1,y1)` is white and every other cell keeps its old colour. The loop invariants keep the error term in (−dx, dx] (0 when dx = 0) and the written prefix plus the remaining walk equal to `LinePixels` |
| `Bresenham.ErrorAtBounded` | Source/RenderTask/MeshModel.cpp:36-54 | the error term at every step of the walk lies in (−dx, dx], and is 0 on a line with dx = 0 |
| `Bresenham.OffsetCharacterization` | Source/RenderTask/MeshModel.cpp:50-54 | a minor offset m is the rounded ideal offset at step k if and only if the error term 2\|dy\|k − 2dx·m lies in (−dx, dx] |
| `Bresenham.StepKeepsErrorForm` | Source/RenderTask/MeshModel.cpp:50-54 | one loop iteration moves y from the rounded offset at step k to the one at step k+1, by 0 or 1 units, and moves error2 from its value at step k to its value at step k+1 |
| `Bresenham.OffsetStep` | Source/RenderTask/MeshModel.cpp:51-53 | with \|dy\| <= dx the rounded offset grows by 0 or 1 per step, so y steps at most once per iteration |
| `Bresenham.WalkFollowsReference` | Source/RenderTask/MeshModel.cpp:44-56 | from the loop state at any step k, the remaining iterations write exactly the reference pixels for steps k to dx |
| `Bresenham.LineMatchesReference` | Source/RenderTask/MeshModel.cpp:36-56 | the pixel sequence DrawLine writes equals the closed-form reference: one pixel per major coordinate, at the rounded ideal minor coordinate, transposed back when steep |
| `Bresenham.LinePixelAt` | Source/RenderTask/MeshModel.cpp:44-55 | pixel k is at major coordinate x0' + k and minor coordinate y0' ± Offset(k), where (x0', y0') is the normalised start |
| `Bresenham.LinePixelCount` | Source/RenderTask/MeshModel.cpp:24-56 | DrawLine writes max(\|x1-x0\|, \|y1-y0\|) + 1 pixels |
| `Bresenham.LineDistinct` | Source/RenderTask/MeshModel.cpp:44-55 | no pixel is written twice |
| `Bresenham.LinePixelSetSize` | Source/RenderTask/MeshModel.cpp:24-56 | the set of pixels written has exactly max(\|x1-x0\|, \|y1-y0\|) + 1 elements |
| `Bresenham.LineEndpoints` | Source/RenderTask/MeshModel.cpp:36-56 | the first and the last pixels written are the two endpoints, so (x0,y0) and (x1,y1) are both drawn |
| `Bresenham.LineSinglePoint` | Source/RenderTask/MeshModel.cpp:36-56 | a zero-length line writes exactly its one point |
| `Bresenham.LineSteps` | Source/RenderTask/MeshModel.cpp:50-55 | between consecutive pixels the major coordinate grows by 1 and the minor coordinate changes by 0 or by sign(dy) |
| `Bresenham.LineEightConnected` | Source/RenderTask/MeshModel.cpp:50-55 | consecutive pixels are distinct 8-neighbours |
| `Bresenham.LineInBoundingBox` | Source/RenderTask/MeshModel.cpp:45-49 | every pixel written, transposed back, lies in the axis-aligned bounding box of the two endpoints |
| `Bresenham.LineDirectionInvariant` | Source/RenderTask/MeshModel.cpp:24-34 | DrawLine(x0,y0,x1,y1) and DrawLine(x1,y1,x0,y0) write the same pixels in the same order |
| `Canvas.Image.constructor` | Source/RenderTask/MeshModel.cpp:76 | a fresh width x height image whose every cell is the fill colour |
| `Canvas.Image.Set` | Source/RenderTask/MeshModel.cpp:46-48 | writes the colour at (x, y) when it is on the grid and changes nothing else |
| `RenderTask.FaceEdge` | Source/RenderTask/MeshModel.cpp:79-81 | edge j of a face runs from vert(i, j) to vert(i, (j+1) mod 3). `EdgesOfMesh` places it at index 3i+j of the edge list |
| `RenderTask.FaceEdges` | Source/RenderTask/MeshModel.cpp:79-87 | the three edges of one face in the order the inner loop draws them. `EdgesNextFace` appends them after the edges of the earlier faces |
| `RenderTask.Edges` | Source/RenderTask/MeshModel.cpp:77-88 | every edge drawn, face by face. `EdgesOfMesh` states that it has 3 entries per face and what entry 3i+j is |
| `RenderTask.SegmentPixels` | Source/RenderTask/MeshModel.cpp:86 | the pixels the `DrawLine` call for one edge writes |
| `RenderTask.Covered` | Source/RenderTask/MeshModel.cpp:78-87 | the pixels written when segments are drawn one after another. `CoveredMembers` states that a pixel is covered if and only if one segment's line contains it |
| `RenderTask.Wireframe` | Source/RenderTask/MeshModel.cpp:77-88 | the pixels the loops over faces and edges write. `WireframeMembers` states that a pixel is in it if and only if it lies on edge j of some face i |
| `RenderTask.EdgesOfMesh` | Source/RenderTask/MeshModel.cpp:78-87 | the edge list has 3 entries per face. Entry 3i+j runs from vertex j of face i to vertex (j+1) mod 3 |
| `RenderTask.CoveredMembers` | Source/RenderTask/MeshModel.cpp:78-87 | a pixel is covered by drawing a list of segments if and only if one of the segments' lines contains it |
| `RenderTask.WireframeMembers` | Source/RenderTask/MeshModel.cpp:78-87 | a pixel is in the wireframe if and only if it lies on edge (vert(i,j), vert(i,(j+1) mod 3)) of some face i, for some j in 0..2 |
| `RenderTask.MeshModel.constructor` | Source/RenderTask/MeshModel.cpp:60-64 | stores the path and loads it: the model is the loader's result on a non-empty path, and none otherwise |
| `RenderTask.MeshModel.LoadModel` | Source/RenderTask/MeshModel.cpp:93-107 | fails on an empty path or a failed load, and then leaves the earlier model in place. Otherwise it succeeds and stores the loaded mesh |
| `RenderTask.MeshModel.WriteMeshIntoFile` | Source/RenderTask/MeshModel.cpp:66-91 | returns false (None) exactly when the file name is empty, or when no model is loaded and loading fails. An empty name loads nothing. Otherwise it yields a fresh 800 x 800 image that is white exactly on the wireframe of the model and blank elsewhere |

## Left out

- The projection from mesh coordinates to the screen (MeshModel.cpp:82-85). It is floating-point arithmetic, and its `static_cast<int>` truncates toward zero. Faces enter the model with integer screen vertices.
- `GetRandomColor` (MeshModel.cpp:11-19) is not called anywhere. It depends on `rand()`. It also writes `color[4]`, one past the four channels.
- The constants `red` and the `FileType type` parameter are unused by the code.
- The source of `TGAImage` is not part of this model. Two things are assumed: a new image has every channel zero (`Blank`), and `set` ignores coordinates off the grid. `write_tga_file` (file encoding and I/O) is left out, so the returned image stands for what is written.
- `RenderTask.MeshModel.WriteMeshIntoFile`: on success the C++ function falls off its end without a `return`, which is undefined behaviour. The model therefore claims no boolean for that path.
- The OBJ parser (`Model`'s constructor) is not part of this model. So are `std::make_unique`, the caught exception and its console output (MeshModel.cpp:99-104). Each load is a `Loader` passed to the call, a function from path to an optional mesh.
- `Bresenham.DrawLine`: C++ `int` overflow is not modelled, because coordinates are mathematical integers. Nothing clips a projected vertex to the canvas before `DrawLine` (MeshModel.cpp:82-86). While every endpoint coordinate has magnitude below 2^28, which includes every on-canvas point, dx stays below 2^29. Then `x1 - x0`, `std::abs(dy) * 2`, `error2 += dError2` (at most 3dx) and `dx * 2` (MeshModel.cpp:36-38, 50, 53) stay within `int`. Larger projected coordinates can overflow in C++, and the model does not capture that.
- `WriteRasterizedMeshIntoFile`, called from Source/RenderExcution/main.cpp:9, is defined in none of the source files, so it is not part of this model. Triangle filling, barycentric coordinates, the depth buffer and flat shading therefore have no code to model.
