# sprite-extractor, modelled in Dafny

sprite-extractor cuts the individual sprites back out of a TexturePacker sheet,
guided by the sheet's JSON-hash manifest. For every entry of the manifest's
`frames` map it builds one ImageMagick command chain: a crop of the packed
rectangle, a quarter turn back if the packer stored the sprite rotated, and,
if the packer trimmed the sprite's transparent borders, four gravity-anchored
`extent` pads that restore the original canvas. It writes each result to
`./<key>`, one sprite after another, and stops at the first failed write.

The model has three modules:

- `Images` (images.dfy): the three image operations as values (`Crop`,
  `Rotate`, `Extent` with a gravity and a fill colour) and an abstract
  semantics over a `Canvas`: the canvas size and the box where the cropped
  sprite lies. A crop starts a fresh canvas of its size. A quarter turn swaps
  the dimensions and carries the box along. An extent sets the canvas to its
  target and keeps the image against the gravity edge, centred on the other
  axis. Pixels are not modelled.
- `Planner` (planner.dfy): the manifest entry (`Frame`), the chain built for
  one entry (`Plan`, and `PlanFrame`, the step-by-step builder of the
  source), and what the chain does under that semantics.
- `Extractor` (extractor.dfy): the parsed records as objects (`FrameRecord`)
  that the collection loop tags in place with their key (`CollectItems`), the
  sequential fail-fast batch (`ExtractAll`), and the two composed (`Launch`).
  The write of each sprite is an input: `outcomes[i]` is what writing item `i`
  reports, should the batch reach it.

The extractor validates nothing in the manifest, and neither does the model:
geometric sanity of a trimmed frame (`FitsSource`: the sprite at
`spriteSourceSize` lies inside `sourceSize`) appears only as a hypothesis of
the lemmas that need it. The order in which `for..in` enumerates the keys of
`frames` is a parameter (`order`, every key exactly once).

## Model

| member | source | states |
|---|---|---|
| `Images.Turn` | index.js:98-100 | a rotation by a multiple of 90 degrees keeps the canvas and sprite dimensions for half turns and swaps them for quarter turns |
| `Images.Place` | index.js:101-115 | an extent gives the canvas exactly the target size, keeps the sprite's size, keeps its distance to the gravity edge (East: right, West: left, South: bottom, North: top), and leaves the other axis alone when that axis does not change size |
| `Images.RunAppend` | index.js:97-115 | applying two chains one after the other is applying their concatenation |
| `Images.OnlyGrowsAppend` | index.js:101-115 | a concatenated chain only pads if and only if both parts do, the second from where the first left off |
| `Images.GrowingKeepsInside` | index.js:97-115 | if the sprite starts inside the canvas and every extent of the chain is at least the current canvas, the sprite lies wholly inside the canvas after every step of the chain, and so at its end |
| `Planner.Plan` | index.js:97-116 | every rotation in a plan is a quarter turn, so every plan has a defined geometry |
| `Planner.PlanFrame` | index.js:87-116 | the builder, reassigning `w` and `h` and appending one operation per builder call, produces exactly the plan of the frame |
| `Planner.PlanShape` | index.js:87-116 | the plan has 1, 2, 5 or 6 operations; it starts with the crop at (`frame.x`, `frame.y`) of `frame.h` x `frame.w` when rotated and `frame.w` x `frame.h` otherwise; a transparent -90 rotation comes second if and only if the frame is rotated; a plain frame gives the crop alone; only the first operation crops; a trimmed frame ends with East (`frame.w`+`ssx`, `frame.h`), West (`srcW`, `frame.h`), South (`srcW`, `frame.h`+`ssy`), North (`srcW`, `srcH`), using the unswapped frame size even when rotated |
| `Planner.PositiveSizesIff` | index.js:91-115 | every crop and extent the chain asks for has a positive width and height if and only if `frame.w` and `frame.h` are positive and, for a trimmed frame, so are `frame.w`+`ssx`, `frame.h`+`ssy`, `srcW` and `srcH` |
| `Planner.FitsGivesPositiveSizes` | index.js:91-115 | a sprite of positive size that is untrimmed or fits its source canvas gets a chain whose every crop and extent size is positive |
| `Planner.Upright` | index.js:91-100 | after the crop and the optional turn the image is `frame.w` wide and `frame.h` tall, all of it sprite, rotated or not |
| `Planner.PadsRestore` | index.js:101-115 | from the upright sprite the four pads give a `sourceSize` canvas with the sprite at (`spriteSourceSize.x`, `spriteSourceSize.y`) |
| `Planner.RestoresSourceCanvas` | index.js:97-115 | whatever sheet the crop starts from, the output canvas is `sourceSize` with the sprite at `spriteSourceSize` when trimmed, and `frame.w` x `frame.h` with the sprite at the origin otherwise |
| `Planner.PadsOnlyGrowIff` | index.js:101-115 | every pad's target is at least the canvas it is applied to if and only if the frame is untrimmed or the trimmed sprite fits its source canvas (`ssx, ssy >= 0`, `frame.w+ssx <= srcW`, `frame.h+ssy <= srcH`) |
| `Planner.SpriteNeverClipped` | index.js:97-115 | when a trimmed frame fits its source canvas (and always for an untrimmed one) no step cuts any of the sprite off: from the crop on, the sprite lies wholly inside the image after every operation of the plan, and wholly inside the output |
| `Planner.TrimExample` | index.js:101-115 | a trimmed 32 x 48 sprite at (4, 2) of a 40 x 52 original comes out 40 x 52 with the sprite at (4, 2) |
| `Extractor.OutputPath` | index.js:117 | the output path is `./` followed by the sprite name verbatim, and the name can be read back from it |
| `Extractor.OutputPathInjective` | index.js:117 | two sprites get the same output path string if and only if they have the same name |
| `Extractor.CollectItems` | index.js:75-81 | the item list has one entry per key, in enumeration order; entry `i` is the record of key `i` itself, tagged in place with `spriteName` equal to that key |
| `Extractor.ExtractAll` | index.js:84-128 | items are handled strictly in list order; the outputs are exactly the items before the first failed write, each written to `./` + its name with its own plan; no later item is written; the batch succeeds if and only if every item was written, and otherwise hands on the error of that first failed write |
| `Extractor.Launch` | index.js:74-128 | collection followed by the batch: every record of `frames` is left tagged with its own key; outputs follow enumeration order with pairwise distinct path strings, stop at the first failed write and report its error, and on success there is exactly one output path per key of `frames` |

## Left out

- Command-line parsing and the help and version text (index.js:5-29,
  143-160), and the unused imports (index.js:33-37): argument plumbing with
  no logic of the core.
- Reading the manifest file and `JSON.parse` (index.js:65-72): I/O and a
  library parser. The model starts from the parsed `frames` map; the
  `FrameRecord` constructor stands for the parser's fresh objects.
- The `ewait` completion wait, the error message on standard error, `Done` on
  standard output and the exit code (index.js:49-63, 131-139): process I/O
  and event plumbing. The single completion of the batch is the single return
  of `ExtractAll`.
- The pixel work of ImageMagick (crop, rotate, extent, write): a foreign
  library. Only operation values and their effect on canvas size and sprite
  position are modelled, and the result of each write is an input.
- Images.Step: a crop is taken to yield exactly its requested size. Real
  crops differ in three ways the model does not capture: ImageMagick clips a
  rectangle that leaves the sheet (the sheet's size is not known to the
  model); it reads a crop width or height of 0 as the whole width or height of
  the image; and a negative width or height is no valid geometry at all, while
  the model gives a canvas of that negative size. `Images.PositiveSizes` marks
  the chains for which only the first difference remains.
- Images.Turn: rotations by other than a multiple of 90 degrees have no
  geometry in the model; the extractor only ever rotates by -90.
- Images.Place: on the axis an edge gravity does not name, the image is
  centred with the difference halved toward zero; every extent the extractor
  emits keeps that axis at its current size, so no result depends on this
  rounding. An extent target of 0 or below is also taken literally: the model
  gives a canvas of that width or height, while ImageMagick keeps the current
  width or height for a 0 target and has no geometry for a negative one.
- Planner.Upright: exact only when `frame.w` and `frame.h` are positive; for
  0 or a negative size it states an image of that size, where the program's
  crop (index.js:97) gives a strip of the whole sheet or no valid geometry.
- Planner.PadsRestore: exact only when every pad target (`frame.w`+`ssx`,
  `frame.h`+`ssy`, `srcW`, `srcH`) and the sprite size are positive; otherwise
  it states a canvas of 0 or negative size that the program never produces.
- Planner.RestoresSourceCanvas: exact only for frames whose chain has
  positive sizes throughout (`Planner.PositiveSizesIff` says which); for the
  others it states an output of 0 or negative width or height.
- Planner.PadsOnlyGrowIff: for a frame with a pad target of 0 or a sprite
  size of 0 or below it counts pads as the model's literal sizes, not as
  ImageMagick applies them. `FitsSource` does not exclude such frames: a
  trimmed frame with `frame.w` 0, `ssx` 0 and `srcW` 0 fits its source and
  has two pads of width 0.
- Planner.SpriteNeverClipped: exact when the sprite size is positive, since
  then a fitting frame's chain has positive sizes throughout
  (`Planner.FitsGivesPositiveSizes`); for a sprite of size 0 or below, the
  strip ImageMagick crops is not modelled.
- Missing or non-numeric manifest fields (JavaScript `undefined` and `NaN`
  arithmetic, a `TypeError` on a trimmed entry without `spriteSourceSize`):
  the model's records always carry every field, as integers. The extractor
  validates none of them, and the model adds no validation either.
- The extractor attaches `spriteName` to the parsed objects themselves; the
  model requires the records of distinct keys to be distinct objects, as
  `JSON.parse` produces them, and does not model a manifest that shares one
  record between keys.
- The code has no malformed-manifest check (no entry is rejected for a
  missing or negative field), and neither does the model; the lemmas above
  that depend on positive sizes say so on their own lines.
- Extractor.OutputPathInjective, Extractor.Launch: output paths are compared
  as strings. The file system's own path aliasing is not modelled: keys such
  as `a` and `./a`, or `a` and `x/../a`, or `A.png` and `a.png` on a
  case-insensitive volume, name the same file, and a later sprite then
  overwrites an earlier one while the batch still succeeds.
