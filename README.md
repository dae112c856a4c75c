# Interactive image annotation editor: geometry and editor state

This project models the arithmetic and state logic at the centre of a browser-based image annotation editor. The user uploads a picture. The editor shows it letterboxed in a 100 x 100 SVG viewBox. A click drops a point; the server runs a segmentation model on that point and sends back a bounding rectangle, which replaces the point. Rectangles can be selected, deleted, moved and resized by dragging a corner, an edge or the middle. The server also turns viewBox rectangles into pixel crop boxes.

The model has five modules:

- `Shapes` (`shapes.dfy`): points, rectangles, annotation records, and small real-number helpers.
- `RectDrag` (`rect_drag.dfy`): the 3 x 3 click table, how a press is classified, and how a rectangle is recomputed during a drag (`client/src/components/groupui.jsx`, pure part).
- `GroupEditor` (`group_ui.dfy`): the editor component's state as a class. Its fields are `annotations`, `selected`, `dragActive`, `clickRegistry`, `cursorMoved`, `hasFile` and `nothingIn`. Each event handler is a method (`client/src/components/groupui.jsx`, stateful part).
- `ServerCoords` (`server_coords.dfy`): the letterbox, the two coordinate maps, the crop box, the bounding box of the model's points, and the request checks of both endpoints (`server/app.py`).
- `GraphicDisplay` (`graphic_display.dfy`): the browser's placement box for the picture, the cover-colour priority, and how an annotation is drawn (`client/src/components/graphicdisplay.jsx`).

Coordinates are exact `real`s. Python's `int(...)` is modelled as truncation toward zero (`ServerCoords.Trunc`); JavaScript's `Math.floor` as `.Floor`. `GraphicDisplay.PlacementMatchesServer` proves that the two agree here: the browser and the server compute the same placement box for the picture.

## Model

| member | source | states |
|---|---|---|
| RectDrag.MapClickToClickType | client/src/components/groupui.jsx:21-46 | The result is one of the nine table entries. Its column is 0, 1 or 2 exactly when the horizontal fraction is below 0.2, between 0.2 and 0.8, or above 0.8, and the row likewise. The move is 'rect' iff row = col = 1, 'edge' iff exactly one of them is 1, and 'corner' otherwise. Both fractions below 0.2 give TOP_LEFT; both above 0.8 give BOTTOM_RIGHT. |
| RectDrag.MakeRectFromOppositeCorners | client/src/components/groupui.jsx:48-54 | Width and height are non-negative. Both input points are corners of the result, and it spans from the smaller to the larger coordinate on each axis. |
| RectDrag.OppositeCornersSymmetric | client/src/components/groupui.jsx:48-54 | Swapping the two corner points gives the same rectangle. |
| RectDrag.UpdatedAnnotation | client/src/components/groupui.jsx:56-122 | A corner drag always yields non-negative width and height. |
| RectDrag.RectDragTranslates | client/src/components/groupui.jsx:60-65 | A 'rect' drag keeps width and height and moves x, y by exactly the pointer's displacement. |
| RectDrag.CornerDragKeepsOppositeCorner | client/src/components/groupui.jsx:66-101 | For each corner handle, the initial rectangle's opposite corner is a corner of the result. The grabbed corner, moved by the pointer's displacement, is a corner too. Both dimensions are non-negative. |
| RectDrag.EdgeDragMovesOneSide | client/src/components/groupui.jsx:102-121 | LEFT keeps x+width, y and height; RIGHT keeps x, y and height; TOP keeps y+height, x and width; BOTTOM (the final else) keeps x, y and width. The moved side shifts by the pointer's displacement. |
| RectDrag.StillPointerKeepsRect | client/src/components/groupui.jsx:56-122 | With the pointer back at the initial click, every table drag type returns the initial rectangle, provided its dimensions are non-negative. |
| GroupEditor.RemoveAll | client/src/components/groupui.jsx:373 | The filter keeps exactly the elements different from the removed index, and keeps a duplicate-free list duplicate-free. |
| GroupEditor.RemoveAbsent | client/src/components/groupui.jsx:373 | Filtering out an index that is not present returns the list unchanged. |
| GroupEditor.RemoveAllAppended | client/src/components/groupui.jsx:373-375 | Filtering an index out of `[...selected, index]` is the same as filtering it out of `selected`. |
| GroupEditor.Toggle | client/src/components/groupui.jsx:372-376 | The index is in the new selection iff it was not in the old one. Every other index keeps its membership. No duplicates appear. |
| GroupEditor.ToggleTwice | client/src/components/groupui.jsx:368-379 | Toggling the same index twice restores the selection as a set. It restores the exact sequence when the index was not selected. |
| GroupEditor.ClearSelected | client/src/components/groupui.jsx:226-231 | The loop keeps the length, sets every selected slot to undefined, and leaves every other slot unchanged. |
| GroupEditor.GroupUI.constructor | client/src/components/groupui.jsx:140-156 | Starts with no annotations, an empty selection, no drag, no registry, cursor not moved, no file and no spinner. |
| GroupEditor.GroupUI.HandleFileChange | client/src/components/groupui.jsx:159-164 | Choosing a file makes `selectedFile` defined. |
| GroupEditor.GroupUI.HandleKeyPress | client/src/components/groupui.jsx:223-234 | On Backspace or Delete, every previously selected slot becomes undefined and all other slots and the length are kept. The selection becomes empty. Any other key changes nothing. |
| GroupEditor.GroupUI.HandleClick | client/src/components/groupui.jsx:278-294 | With a file loaded and no drag active, appends one point annotation, shows the spinner, and returns the new slot's index as the one awaiting inference. Otherwise nothing changes. |
| GroupEditor.GroupUI.ReceiveInference | client/src/components/groupui.jsx:243-262 | Any JSON reply sets the point's slot to undefined, appends one record, and hides the spinner. The record is the returned rectangle for a success. For a 400 it is a coordinate-less record carrying the message; for `{success: False}` one without a message. An uncaught server error (500, no JSON body) changes nothing: the point stays and the spinner stays on. |
| GroupEditor.GroupUI.HandleDragStartRect | client/src/components/groupui.jsx:339-354 | A no-op when a drag is active. Otherwise it records the classified click type, the click, the rectangle and its index, and sets `dragActive`. |
| GroupEditor.GroupUI.HandleDragRect | client/src/components/groupui.jsx:356-366 | During a drag, only the registry's slot changes: it becomes the recomputed rectangle, and `cursorMoved` is set. Without a drag nothing changes. |
| GroupEditor.GroupUI.MovePointer | client/src/components/groupui.jsx:356-366 | The update shared by `handleDragRect` and `handleMouseOverSvg`. During a drag, only the registry's slot changes: it becomes the recomputed rectangle, and `cursorMoved` is set. Without a drag nothing changes. |
| GroupEditor.GroupUI.HandleMouseOverSvg | client/src/components/groupui.jsx:296-307 | Same update as a drag move over the rectangle. |
| GroupEditor.GroupUI.HandleClickRect | client/src/components/groupui.jsx:368-379 | Toggles the index in `selected` only when the cursor has not moved. |
| GroupEditor.GroupUI.HandleDragEndRect | client/src/components/groupui.jsx:381-390 | Clears the registry and `dragActive`. |
| GroupEditor.GroupUI.CursorMovedTimeout | client/src/components/groupui.jsx:383-387 | The delayed reset clears `cursorMoved`. |
| GroupEditor.GroupUI.HandleClear | client/src/components/groupui.jsx:400-405 | Empties the selection unless the parent disabled clearing. |
| ServerCoords.ComputeLetterbox | server/app.py:42-51 | Portrait: height 100, y 0, x = (100 - width) div 2. Otherwise: width 100, x 0, y = (100 - height) div 2. The scaled side is 100·ratio rounded down. Sizes are within 0..100, offsets are non-negative, and the picture ends inside the box. |
| ServerCoords.ImageCoordToPoint | server/app.py:39-56 | The picture's origin pixel lands on the letterbox offset, and pixels with non-negative coordinates land at or beyond it. Its exactness and range are stated by `RoundTrip` and `ImageMapsIntoViewBox`. |
| ServerCoords.ClampScale | server/app.py:72-84 | One clamped coordinate lies in [0, limit/100·scale], and is 0 for a point at or before the letterbox offset. |
| ServerCoords.PointToImageCoord | server/app.py:58-86 | For positive sizes the result satisfies 0 ≤ X ≤ W and 0 ≤ Y ≤ H for any input. Points left of or above the placed picture map to 0. |
| ServerCoords.RoundTrip | server/app.py:39-86 | For 0 ≤ X ≤ W and 0 ≤ Y ≤ H, mapping into the viewBox and back returns exactly (X, Y). |
| ServerCoords.PointToImageCoordMonotone | server/app.py:58-86 | Each output coordinate is non-decreasing in the matching input coordinate. |
| ServerCoords.ImageMapsIntoViewBox | server/app.py:39-56 | Every pixel of the picture maps into [0, 100] x [0, 100]. Rounding the scaled side down never pushes the centred picture past the edge. |
| ServerCoords.CentredFits | server/app.py:44-46 | An extent in (0, 100], floored and centred, ends at or before 100. |
| ServerCoords.CropImg | server/app.py:88-93 | All four box coordinates lie within the picture. For a rectangle with non-negative size, left ≤ right and top ≤ bottom. |
| ServerCoords.CropOfPixelBox | server/app.py:88-93 | For a pixel box 0 ≤ left ≤ right ≤ W, 0 ≤ top ≤ bottom ≤ H, the crop box of its viewBox image is exactly (left, top, right, bottom). |
| ServerCoords.MinOf | server/app.py:126 | The minimum is an element of the column and is at most every element. |
| ServerCoords.MaxOf | server/app.py:127 | The maximum is an element of the column and is at least every element. |
| ServerCoords.InferenceBox | server/app.py:125-128 | None exactly for an empty point list. Otherwise width = maxX - minX ≥ 0, height = maxY - minY ≥ 0, and every point lies inside the box. |
| ServerCoords.InferenceBoxTight | server/app.py:126-128 | Each of the box's four sides touches some point. |
| ServerCoords.CheckRequest | server/app.py:106-117 | A missing session id is reported first ("No session ID found"), then a missing image part ("No image part in the request"), then an empty filename ("No selected file"). A falsy upload falls through to `{success: False}`. |
| ServerCoords.Inference | server/app.py:104-130 | Rejections become status 400 with the check's message, and a falsy upload gives `{success: False}`. For an accepted request the reply is an internal error iff the model's answer is empty, and a rectangle otherwise. That rectangle is the bounding box of the answer mapped into the viewBox: it has non-negative size and contains every mapped point. |
| ServerCoords.InferenceReplyInViewBox | server/app.py:119-128 | When the model's points lie in the picture, the reply is a rectangle inside the 100 x 100 viewBox. |
| ServerCoords.Cropper | server/app.py:132-169 | Same rejections as `inference`. An accepted request gets one crop box per rectangle: box i is `cropImg` of rectangle i. Each box lies within the picture and is ordered for a rectangle of non-negative size. |
| ServerCoords.CropperCutsPixelBoxes | server/app.py:147-150 | When every rectangle is the viewBox image of a pixel box inside the picture, the reply is exactly those pixel boxes, in order. |
| ServerCoords.SameRejections | server/app.py:134-145 | The two endpoints reject the same requests with the same message. |
| GraphicDisplay.GetAdjustedPlacement | client/src/components/graphicdisplay.jsx:48-63 | Portrait pictures get h = 100 and y = 0; others get w = 100 and x = 0. The placement fits the 100 x 100 box. |
| GraphicDisplay.PlacementMatchesServer | client/src/components/graphicdisplay.jsx:48-63 | The browser's (x, y, w, h) equals the server's (newX, newY, newWidth, newHeight) for the same picture. |
| GraphicDisplay.SelectedPathKeys | client/src/components/graphicdisplay.jsx:20 | A path key is in the flattened list iff it belongs to some selected graph node. |
| GraphicDisplay.CoverElement | client/src/components/graphicdisplay.jsx:18-46 | A key in the highlight gets the blinking highlight colour. Otherwise a selected key gets the select colour at alpha 1, then a hovered key at alpha 0.6. A valid highlight without the key gets "none". No element is produced iff the highlight is empty and the key is neither selected nor hovered. Fill and stroke take the colour only where the path has them. |
| GraphicDisplay.CreateAnnotationElement | client/src/components/graphicdisplay.jsx:76-105 | Nothing is drawn iff the annotation is undefined. The colour is red iff the index is selected, else cyan. A point draws a horizontal and a vertical segment of length 2·crossSize centred on it. A rectangle draws its own frame with eight ticks. A record without coordinates takes the rectangle branch with every coordinate undefined. |
| GraphicDisplay.FrameTicksAtCorners | client/src/components/graphicdisplay.jsx:106-177 | Each of a rectangle's eight ticks starts at a corner of the frame and is an axis-aligned line of length crossSize. |

## Left out

- Network and DOM input/output: `fetch`, `FormData`, the blob download in `handleCropClick`, the file dialog, `Image.onload` and `URL.createObjectURL`. Only the state updates applied on the client are modelled.
- `convertCoordinates` is not part of this model. Handlers receive the click already in viewBox units.
- `HandleFileChange` models only `selectedFile` becoming defined. The image URL, the placeholder graphic and the picture's size are display inputs here.
- `componentDidMount`, `componentWillUnmount` and `tryNotifyParent`: listener registration and parent callbacks.
- `handleCropClick` is not modelled. It posts every defined annotation, because its type filter is commented out. So pending points and error-reply records reach `cropper`, whose `rect['x']`/`rect['width']` lookups then raise and fail the whole request. `Cropper` takes rectangles only, so records without a rectangle's four keys are outside the model.
- The `setTimeout` in `handleDragEndRect` becomes the explicit `CursorMovedTimeout` event, which may arrive at any time.
- `hover`, `graph` and the other state fields that no modelled handler changes are not fields of the class.
- The drag handlers' `annotation` and `index` arguments that the source ignores are not parameters here. A drag writes a record without `type`; the display draws it as a rectangle, so the model writes a rectangle annotation.
- The blink counter (`setInterval`) and `alphaBlink` are timer animation. The tick is a parameter of `CoverElement`.
- `rgb2string`, the palette, `isStyleNotNone` (the `fills`/`strokes` parameters) and `node2ReactElement` are helpers outside this model.
- React element construction is not modelled: `pathElement`, event wiring, stroke widths, dash styles, the spinner and `render`.
- Flask routing and sessions (a `hasSessionId` flag), PIL `Image.open`/`crop`/`save`, the temporary directory, the zip file and `random_string` are not modelled.
- The segmentation model is the `segment` parameter of `Inference`.
- `json.loads` of the request form is not modelled: the click and rectangles are given already parsed.
- The truthiness of the uploaded file object is decided by Flask's file class. It is a field of `Upload`.
- client/src/components/svghandler.jsx, client/src/components/slides.jsx and client/src/index.js are not part of this model (rendering and page wiring).
- The SVG `<image>` element fits the picture inside its placement box with the default `preserveAspectRatio` ("xMidYMid meet"). Because the scaled side is rounded down, the drawn picture can be slightly smaller than the box along the other side: for a 2 x 3 picture the box is 66 x 100 but the picture is drawn 66 x 99. The model proves only that the boxes agree, not that the drawn pixels match the server's letterbox.
- `UnplacedFrame`: the model does not describe what the browser draws for undefined (NaN) coordinates.
- IEEE-754 rounding is not modelled. All arithmetic is exact, and picture sizes are positive reals rather than integers.
- MapClickToClickType: requires non-zero width and height. JavaScript would divide by zero and classify from Infinity or NaN.
- GroupEditor.GroupUI.HandleDragStartRect: requires non-zero width and height for the same reason, but only when no drag is active.
- GroupEditor.GroupUI.HandleClickRect: requires the index to be an annotation slot. The display only passes indices of drawn annotations.
- Concurrent inference replies are not modelled beyond each reply being applied on its own. Replies may arrive in any order.
