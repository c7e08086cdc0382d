# ToneMatrix Redux, modelled in Dafny

ToneMatrix Redux is a browser step sequencer. A 16 x 16 grid of tiles loops over one measure,
column by column, and every armed tile plays its row's note of a pentatonic scale. Clicking or
dragging over the canvas arms or disarms tiles. A drag takes the value its first tile chose and
keeps it to the end. Playing notes burst into particles, and particles make the tiles under them
glow. The whole grid can be shared as a URL whose `d` query value encodes it: the armed states
are packed eight to a byte, most significant bit first. The bytes are base64 text (section 4 of
RFC 4648), percent-encoded per section 2.1 of RFC 3986.

The repository has two versions of the program:

- the modular one: `Grid`, `Util`, `Tile`, `SynthInstrument`, `ParticleSystem`, `GridRenderer`
  and `ToneMatrix`;
- the older single-file `tonematrix.js`, which does the same work in one class.

This project models both, one Dafny module per concern:

| module | file | what it models |
|---|---|---|
| `Common` | common.dfy | `Option` (JavaScript `false`/`undefined`/exception), `byte` |
| `Util` | util.dfy | `coordToIndex`, `pixelCoordsToTileCoords` |
| `Volume` | volume.dfy | the affine polyphony volume rule |
| `Timeline` | timeline.dfy | grid cells, the Transport as a table of events with fresh ids, the NotePlayer wrapper |
| `Base64` | base64.dfy | `btoa` and `atob` |
| `Uri` | uri.dfy | `encodeURIComponent`/`decodeURIComponent` on ASCII, and the form-urlencoded serializer and decoder of URLSearchParams |
| `SearchParams` | searchparams.dfy | the query of a URL, the form-urlencoded parser and `URLSearchParams.get` |
| `Savestate` | savestate.dfy | the packing loops of `toBase64`/`fromBase64`, shared by both versions |
| `GridState` | grid.dfy | class `Grid` |
| `Tiles` | tile.dfy | class `Tile` |
| `Synth` | synth.dfy | the scale table and class `SynthInstrument` |
| `Particles` | particles.dfy | class `ParticleSystem`, used with 2000 slots by the modular version and 200 by the single-file one |
| `Renderer` | renderer.dfy | the heat map, the sprite rule and class `GridRenderer` |
| `App` | app.dfy | class `ToneMatrix`: the `arming` drag latch, mouse and touch events, the share field |
| `Legacy` | legacy.dfy | class `LegacyToneMatrix`, the single-file version |

State that the source changes in place is a class with `modifies` clauses. Cells are a `seq` of
`Unarmed | Armed(id)`, the particle pool is an `array`, and the bookkeeping tables are `map`s.
Each method is proved against a specification function. The headline results are:

- a share code loads back exactly the armed states it was made from (`Savestate.LoadShareCode`,
  built on `Base64.AtobBtoa` and `Uri.DecodeEncodeURIComponent`);
- loading a grid's own code into it changes no cell and no event (`GridState.ShareRoundTrip`,
  `Legacy.ShareRoundTrip`);
- a fresh page opened at the share URL reads the code back with URLSearchParams
  (`SearchParams.ShareLinkParam`, built on `Uri.FormUrlDecodeEncode`), so it restores the tune
  (`App.ShareLinkRestoresTune`, `Legacy.ShareLinkRestoresTune`);
- every tile of a drag is painted with the first tile's value (`App.PaintStroke`).

The particle bounce reapplies a stale displacement. The code negates the velocity, then adds
the displacement computed before the negation, so a particle that leaves the canvas moves a
second step outward (`Particles.MoveAlongX`, `Particles.BounceOscillates`).

JavaScript numbers that are not integer counts or indices are modelled as exact reals: particle
positions, velocities and lives, the time factor, pixel coordinates, tile sizes and volumes.
Every property about them is a property of real arithmetic (see "## Left out").

## Model

| member | source | states |
|---|---|---|
| Util.CoordToIndexInverse | src/Util.js:48-51 | for 0 <= y < w, index x*w+y divided by w gives x and leaves remainder y |
| Util.CoordToIndexInjective | src/Util.js:48-51 | two tiles whose y lies in [0, w) and that share an index are the same tile |
| Util.IndexToCoord | src/Grid.js:136-139 | every index i >= 0 is the index of tile (i div w, i mod w), and i mod w lies in [0, w) |
| Util.IndexInGrid | src/Util.js:48-51 | a tile with x in [0, h) and y in [0, w) has an index in [0, w*h) |
| Util.TileOf | src/Util.js:35-45 | a tile is returned exactly when the pixel lies in [0, bound*dx) x [0, bound*dy); a returned tile has both coordinates in [0, bound) and its square contains the pixel |
| Util.FloorInRange | src/Util.js:37-43 | the rounded-down quotient p/d lies in [0, bound) exactly when p lies in [0, bound*d) |
| Util.FloorDivBounds | src/Util.js:35-36 | rounding p/d down to t gives t*d <= p < (t+1)*d |
| Util.PixelInReturnedTile | src/Util.js:31-45 | with dx = canvasHeight/gridHeight and dy = canvasWidth/gridWidth and both coordinates bounded by gridWidth, a tile is returned exactly when y lies in [0, canvasWidth) and x in [0, canvasHeight*gridWidth/gridHeight), and a returned tile contains the pixel |
| Util.NegativePixelIsOffGrid | src/Util.js:37-43 | a pixel with a negative coordinate, such as (-1, -1), maps to no tile |
| Volume.SilentColumnIsLoudest | src/Grid.js:48-52 | with no note in the column the volume is the high level |
| Volume.FullColumnIsQuietest | src/Grid.js:48-52 | with a full column the volume is the low level |
| Volume.VolumeInRange | src/SynthInstrument.js:73-77 | for 0 <= count <= height the volume lies between the low and the high level |
| Volume.VolumeDecreasing | src/Grid.js:48-52 | one more note in the column gives a strictly lower volume |
| GridState.ArmingVolumeBounds | src/Grid.js:48-52 | the arming volume lies in [-35, -10]; it is -10 for an empty column and -35 for a full one |
| GridState.ArmingVolumeNonIncreasing | src/Grid.js:48-52 | more notes in the column never give a louder arming volume |
| GridState.Grid.IdsDistinct | src/Grid.js:54-59 | no two armed cells hold the same event id |
| GridState.Grid.constructor | src/Grid.js:6-13 | width*height unarmed cells, a player that accepts notes; the invariant holds |
| GridState.Grid.CountNotesInColumn | src/Grid.js:63-70 | the count is the number of rows y in [0, height) whose tile in column x is armed, so at most height |
| GridState.Grid.SetTileValue | src/Grid.js:42-61 | only cell coordToIndex(x, y) changes; arming an armed tile or disarming an unarmed one changes neither cells nor events; arming schedules an event at the column's volume and stays unarmed when the player refuses; disarming clears exactly the tile's event |
| GridState.Grid.ToggleTileValue | src/Grid.js:77-80 | the tile flips (arming succeeds only when the player accepts) and no other cell changes |
| GridState.Grid.ClearAllTiles | src/Grid.js:15-18 | every cell is unarmed and the length stays width*height; the Transport is not touched, so its events stay scheduled |
| GridState.Grid.ToBase64 | src/Grid.js:87-114 | the result is the share code of the armed states, and it is "" exactly when no cell is armed |
| GridState.Grid.FromBase64 | src/Grid.js:120-143 | a code that throws changes nothing; a code that loads sets each cell to its bit, and a cell already in its bit's state keeps its event |
| GridState.Grid.LoadCells | src/Grid.js:136-139 | setTileValue(i div w, i mod w, bit i) over all i leaves cell i armed iff bit i is set and it was armed or the player accepts |
| GridState.ShareRoundTrip | src/Grid.js:87-143 | fromBase64(toBase64()) leaves every cell and the event table unchanged |
| Timeline.Transport.Schedule | src/NotePlayer.js:72-78 | the event is stored under an id that was not live, and the next id moves on |
| Timeline.Transport.Clear | src/NotePlayer.js:88-91 | exactly that id is dropped |
| Timeline.Transport.Cancel | src/ToneMatrix.js:217 | every event is dropped |
| Timeline.NotePlayer.ScheduleNote | src/NotePlayer.js:67-85 | when the Transport accepts, a fresh id for an event at (x, y) with the given volume; otherwise `false` and no change |
| Timeline.NotePlayer.UnscheduleNote | src/NotePlayer.js:88-91 | the cell's event is cleared; a `false` cell clears nothing |
| Savestate.ByteValueBound | src/Grid.js:102 | parseInt of k binary digits is below 2^k, so eight digits make a byte |
| Savestate.DigitsOfValue | src/Grid.js:129-133 | toString(2).padStart(k, '0') of parseInt of k digits gives the digits back |
| Savestate.DigitIsBit | src/Grid.js:131-132 | digit j of the k-digit text of v is bit k-1-j of v |
| Savestate.PackByte | src/Grid.js:92-102 | bit 7-j of the byte is cell j of its eight: the first cell is the most significant bit |
| Savestate.PackBits | src/Grid.js:90-103 | n cells pack into n/8 bytes |
| Savestate.PackedBitLayout | src/Grid.js:89-104 | bit 7-j of byte i is the armed state of cell 8i+j |
| Savestate.BtoaIsAscii | src/Grid.js:111 | base64 text is ASCII |
| Savestate.Unpack | src/Grid.js:126-134 | the decoded bit string has exactly one bit per cell |
| Savestate.LoadBits | src/Grid.js:122-134 | a code that loads gives one bit per cell |
| Savestate.UnpackPack | src/Grid.js:87-134 | unpacking the packed bytes gives the cells' states back |
| Savestate.LoadEmptyCode | src/Grid.js:122-134 | the empty code loads an all-unarmed grid |
| Savestate.LoadShareCode | src/Grid.js:87-134 | a share code loads back exactly the armed states it was made from |
| Savestate.ShareCodeEmpty | src/Grid.js:89-104 | the share code is "" exactly when no cell is armed |
| Savestate.CellsShareCodeEmpty | src/Grid.js:89-104 | the share code of a grid's cells is "" exactly when no cell holds an event |
| Savestate.LoadMalformedCode | src/Grid.js:122-142 | a code with stray `%` escapes fails decodeURIComponent, so nothing loads |
| Savestate.LoadTruncatedCode | src/Grid.js:122-142 | a one-character code is not base64, so atob throws and nothing loads |
| Savestate.EncodeCells | src/Grid.js:87-114 | the loops of toBase64 compute the share code of the cells' armed states |
| Savestate.ReadChunk | src/Grid.js:92-101 | the inner loop builds the eight digits of cells 8i..8i+7 and reports whether one of them is armed |
| Savestate.DecodeBits | src/Grid.js:126-134 | the first loop of fromBase64 builds the bit string Unpack describes |
| Base64.SextetOf | src/Grid.js:124 | a character has a 6-bit value exactly when it is in the base64 alphabet |
| Base64.CharOfInverse | src/Grid.js:111 | every 6-bit value's character is in the alphabet and maps back to that value |
| Base64.Sextets | src/Grid.js:111 | n bytes give 4*(n div 3) groups, plus n mod 3 + 1 for a final partial group |
| Base64.Btoa | src/Grid.js:111 | the text has 4 characters per started group of three bytes, and is empty only for no bytes |
| Base64.SextetsOfChars | src/Grid.js:124 | reading the characters of 6-bit values gives the values back |
| Base64.GroupRoundTrip | src/Grid.js:111 | three bytes split into four 6-bit values reassemble to the same bytes |
| Base64.BytesOfSextets | src/Grid.js:111-124 | reassembling the 6-bit values of any bytes gives the bytes |
| Base64.StripPaddingOfBtoa | src/Grid.js:111-124 | removing btoa's `=` padding leaves exactly the alphabet characters |
| Base64.AtobBtoa | src/Grid.js:111-124 | atob(btoa(b)) == b for every binary string |
| Uri.HexValue | src/Grid.js:123 | a hexadecimal digit of either case has a value below 16 |
| Uri.Escape | src/Grid.js:112 | an escape is `%` and two characters, all ASCII |
| Uri.EncodeURIComponent | src/Grid.js:112 | the encoding is never shorter than the text |
| Uri.EncodeURIComponentIsAscii | src/Grid.js:112 | percent-encoded ASCII text is ASCII |
| Uri.DecodeEncodeURIComponent | src/Grid.js:112-123 | decodeURIComponent(encodeURIComponent(s)) == s for every ASCII s |
| Uri.FormUrlEncode | src/ToneMatrix.js:228-229 | the form serialization is never shorter than the value |
| Uri.FormUrlEncodeAlphabet | src/ToneMatrix.js:228-229 | every character of a form serialization is form-safe, `+` or `%`, so it holds no `&`, `=` or `#` |
| Uri.FormUrlDecodeEncode | src/ToneMatrix.js:154-155 | the parser's `+` and percent decoding gives back every ASCII value the serializer of src/ToneMatrix.js:228-229 wrote |
| SearchParams.UpToHash | src/ToneMatrix.js:154 | the query stops at the first `#`: a prefix of the text after the `?` |
| SearchParams.Get | src/ToneMatrix.js:155 | a value exactly when some pair has the name, and then the value of the first such pair |
| SearchParams.PageURLHasNoParam | src/ToneMatrix.js:58 | a page URL built from protocol, host and pathname has no query, so `get` gives null for every name |
| SearchParams.ShareQuery | src/ToneMatrix.js:228-229 | the query `v=1&d=` + serialized code parses into exactly the pairs (v, "1") and (d, code) |
| SearchParams.ShareLinkParam | src/ToneMatrix.js:154-155 | on the page at a share URL, `get('d')` gives back the code it was built from |
| Uri.EncodeBase64Character | src/Grid.js:111-112 | on base64 text only `+`, `/` and `=` change, to %2B, %2F and %3D |
| Uri.FormEncodeOfEscape | src/ToneMatrix.js:228-229 | the query serializer escapes the `%` of an already percent-encoded code again |
| Tiles.Tile.constructor | src/Tile.js:2-8 | a new tile holds no note, its counter is 0 and it is empty |
| Tiles.Tile.GetNote | src/Tile.js:14-20 | getNote gives a value exactly when hasNote holds, and it is the stored id |
| Tiles.Tile.AddNote | src/Tile.js:22-25 | slot i gets the id, the counter goes up by one, other slots are unchanged; the counter stays consistent when the slot was empty |
| Tiles.Tile.RemoveNote | src/Tile.js:27-30 | slot i is emptied, the counter goes down by one, other slots are unchanged; the counter stays consistent when the slot was filled |
| Tiles.Tile.RemoveAllNotes | src/Tile.js:32-35 | no slot holds a note and the tile is empty |
| Tiles.EmptyIffNoNotes | src/Tile.js:10-30 | while the counter is consistent, isEmpty holds iff no slot holds a note |
| Tiles.DoubleAddMiscounts | src/Tile.js:22-25 | adding twice to one slot leaves one note but a count of two |
| Tiles.RemoveFromEmptyMiscounts | src/Tile.js:27-30 | removing from an empty slot drives the counter to -1 |
| Synth.NatToString | src/SynthInstrument.js:23-24 | the text of a number is a non-empty run of decimal digits that starts with `0` only for 0 |
| Synth.NatToStringValue | src/SynthInstrument.js:23-24 | reading the decimal text of n back as a number gives n, for every octave number |
| Synth.Reverse | src/SynthInstrument.js:26 | entry k of the reversal is entry n-1-k of the input |
| Synth.BuildScale | src/SynthInstrument.js:18-26 | the fill-then-reverse loop builds Scale(h) |
| Synth.SixteenRowScale | src/SynthInstrument.js:18-26 | on 16 rows the top note is B#6 and the bottom one B#3 |
| Synth.OctaveAboveSamePitchClass | src/SynthInstrument.js:23-24 | five rows up is the same pitch class one octave higher |
| Synth.ColumnIds | src/SynthInstrument.js:89 | column x's ids are live notes, so a column never counts more notes than the table holds |
| Synth.NoTableNoNotes | src/SynthInstrument.js:40-41 | the empty note table has no note in any column |
| Synth.NotesInColumnAdd | src/SynthInstrument.js:89-90 | recording a new note adds one to its own column's count only |
| Synth.NotesInColumnRemove | src/SynthInstrument.js:100-102 | deleting a note takes one from its own column's count only |
| Synth.SynthInstrument.constructor | src/SynthInstrument.js:10-41 | the reversed scale, zero polyphony in every column, no notes, no players yet |
| Synth.SynthInstrument.FinishPreRender | src/SynthInstrument.js:51-58 | scale length * 3 players are added and nothing else changes |
| Synth.SynthInstrument.ScheduleNote | src/SynthInstrument.js:68-92 | a fresh id records note (x, y), polyphony[x] goes up by exactly one, other columns are unchanged; polyphony equals the live notes per column |
| Synth.SynthInstrument.UnscheduleNote | src/SynthInstrument.js:98-105 | the note is removed, its column's polyphony goes down by one and stays >= 0, and its event is cleared; an unknown id throws before any change |
| Synth.SynthInstrument.PlayScheduledNote | src/SynthInstrument.js:72-87 | the volume is the polyphony rule and lies in [-20, -10] when polyphony <= height; a player plays and the cursor advances modulo the player count only when players exist |
| Synth.ScheduleThenUnschedule | src/SynthInstrument.js:89-103 | scheduling and then unscheduling the returned id restores the notes, the polyphony and the events |
| Particles.Move | src/ParticleSystem.js:36-52 | a dead or empty slot is unchanged; a live particle loses exactly the decay from its life |
| Particles.MoveAlongX | src/ParticleSystem.js:37-44 | a bounce moves x by twice the stale displacement and negates vx; otherwise x moves by the displacement once |
| Particles.MoveAlongY | src/ParticleSystem.js:38-50 | the same along y |
| Particles.BounceOscillates | src/ParticleSystem.js:39-44 | over real arithmetic, a particle crossing the right edge ends outside it, and the next step brings it back to its start position |
| Particles.AfterCreations | src/ParticleSystem.js:67-77 | a run of creations keeps the pool size |
| Particles.RingDistinct | src/ParticleSystem.js:75-76 | fewer than size creations in a row use distinct slots |
| Particles.RingHoldsLastCreations | src/ParticleSystem.js:67-77 | among the last size creations, creation j sits in slot (cursor + j) mod size |
| Particles.RingUntouched | src/ParticleSystem.js:67-77 | a slot no creation wrapped onto keeps its old content |
| Particles.OneLapAndOne | src/ParticleSystem.js:75-76 | after size+1 creations from slot 0, slot 0 holds the last creation and slot 1 the second |
| Particles.ParticleSystem.constructor | src/ParticleSystem.js:8-23 | 2000 empty slots, cursor 0, no update yet |
| Particles.ParticleSystem.Legacy | src/tonematrix.js:9-23 | the single-file pool: 200 empty slots, cursor 0, no tick yet |
| Particles.ParticleSystem.CreateParticle | src/ParticleSystem.js:67-77 | exactly the oldest slot gets a full-life particle, and the cursor moves on modulo the pool size |
| Particles.ParticleSystem.StepAll | src/ParticleSystem.js:34-53 | every slot takes one Move step in place |
| Particles.ParticleSystem.Update | src/ParticleSystem.js:29-58 | the first call only records the time; later calls move every slot by the elapsed frames and fade it by them (modular) or by one (single-file, src/tonematrix.js:46-73) |
| Particles.CreateAll | src/GridRenderer.js:80-84 | a run of createParticle calls has the effect AfterCreations describes and advances the cursor by the run's length |
| Renderer.HeatTarget | src/GridRenderer.js:125-127 | only a particle, never an empty slot, writes a heat entry |
| Renderer.HeatTargetInRange | src/GridRenderer.js:125-127 | a written entry gridWidth*y+x lies inside the heat map |
| Renderer.LastHeatNoWriter | src/GridRenderer.js:121-129 | with no slot over a tile its heat is 0 |
| Renderer.LastHeatLastWriter | src/GridRenderer.js:123-128 | a tile's heat is the life of the last slot over it |
| Renderer.LastHeatIgnoresOffGrid | src/GridRenderer.js:125-127 | a slot off the grid affects no entry |
| Renderer.DeadParticleStillWrites | src/GridRenderer.js:123-128 | there is no life filter: a dead particle writes its negative life |
| Renderer.ScanHeat | src/GridRenderer.js:119-130 | the heat-map loop fills a fresh array whose entry k is LastHeat of k |
| Renderer.DrawPlan | src/GridRenderer.js:61-100 | tile i is drawn at column i mod w and row i div w with `SpriteFor` of its armed state (2 when armed in the playhead column, 1 when armed elsewhere, 0 when unarmed), and bursts are exactly the tiles with sprite 2 |
| Renderer.GridRenderer.constructor | src/GridRenderer.js:11-19 | the renderer owns a fresh 2000-slot pool over the canvas size |
| Renderer.GridRenderer.GetParticleHeatMap | src/GridRenderer.js:119-130 | one entry per tile, holding LastHeat over the pool |
| Renderer.GridRenderer.Draw | src/GridRenderer.js:39-100 | the heat map, the sprite of every tile and the burst tiles |
| App.SharingURL | src/ToneMatrix.js:225-237 | the share field starts with the page URL, and it is the page URL alone iff the code is empty |
| App.SharingURLCarriesCode | src/ToneMatrix.js:154-162 | the page opened at the share URL of a non-empty code reads that code as `d`; the page URL alone carries no `d` |
| App.ShareCodeIsAscii | src/Grid.js:111-112 | a share code is ASCII |
| App.ShareFieldIsPageURLIffEmpty | src/ToneMatrix.js:80-82 | after a click the share field starts with the page URL and is the page URL alone iff no tile is armed |
| App.PaintedTwice | src/ToneMatrix.js:73-78 | two clicks of one stroke paint the union of their cells |
| App.InitialStates | src/ToneMatrix.js:154-162 | the starting armed states have one entry per tile |
| App.ToneMatrix.CellAt | src/ToneMatrix.js:75-78 | the tile under an on-grid point has an index inside the grid |
| App.ToneMatrix.constructor | src/ToneMatrix.js:16-171 | a 16 x 16 grid, the mouse at (-1, -1), no stroke; the tune of a non-empty `d` is loaded and shown in the share field |
| App.ToneMatrix.CanvasClick | src/ToneMatrix.js:73-85 | the stroke's first click fixes arming to the opposite of its tile; the tile is painted with it; the share field shows the grid's share URL, or the page URL when nothing is armed |
| App.ToneMatrix.PaintTile | src/ToneMatrix.js:74-78 | the arming latch and setTileValue, with the share field unchanged |
| App.ToneMatrix.ShowShareCode | src/ToneMatrix.js:80-82 | setSharingURL for a non-empty code, resetSharingURL otherwise |
| App.ToneMatrix.SetSharingURL | src/ToneMatrix.js:225-230 | the field is the share URL of the code, which differs from the page URL |
| App.ToneMatrix.ResetSharingURL | src/ToneMatrix.js:235-237 | the field is the page URL |
| App.ToneMatrix.MouseDown | src/ToneMatrix.js:94-98 | arming is reset, so it becomes the opposite of the clicked tile |
| App.ToneMatrix.MouseMove | src/ToneMatrix.js:86-90 | the mouse follows; without exactly the left button nothing else changes; with it, a click |
| App.ToneMatrix.ResetCanvasMousePosition | src/ToneMatrix.js:204-209 | the mouse is at (-1, -1), which is on no tile |
| App.ToneMatrix.MouseLeave | src/ToneMatrix.js:91-93 | only the mouse position is reset |
| App.ToneMatrix.TouchEnd | src/ToneMatrix.js:111-114 | only the mouse position is reset |
| App.ToneMatrix.ClickAll | src/ToneMatrix.js:104-109 | every touched cell is painted with the stroke's value, and the mouse ends at the last touch |
| App.ToneMatrix.ClickPoint | src/ToneMatrix.js:106-107 | the mouse moves to the touch, which is clicked |
| App.ToneMatrix.ClickRest | src/ToneMatrix.js:104-109 | with the stroke's value fixed, every touched cell is painted with it |
| App.ToneMatrix.TouchStart | src/ToneMatrix.js:99-110 | a single touch resets arming; the touched cells are painted with the stroke's value |
| App.ToneMatrix.TouchMove | src/ToneMatrix.js:115-123 | the touched cells are painted with the stroke's value |
| App.ToneMatrix.Clear | src/ToneMatrix.js:214-219 | every cell unarmed, every event cancelled, the share field reset |
| App.PaintStroke | src/ToneMatrix.js:86-98 | mousedown and a drag paint every cell of the stroke with the first tile's value |
| App.DragOver | src/ToneMatrix.js:86-90 | mousemoves with the button held paint every cell passed with the stroke's value |
| App.DragStep | src/ToneMatrix.js:86-90 | one mousemove extends the painted cells by its tile |
| App.ShareLinkRestoresTune | src/ToneMatrix.js:154-162 | a fresh page opened at the share URL, reading `d` with URLSearchParams, starts with the grid's armed states and shows the same share URL |
| Legacy.LegacyToneMatrix.GetTileCollision | src/tonematrix.js:429-443 | with tiles width/16 on both axes, a tile is returned exactly when both coordinates lie in [0, width), and it contains the pixel |
| Legacy.LegacyToneMatrix.NegativePixelHitsNoTile | src/tonematrix.js:432-440 | a pixel left of or above the canvas hits no tile |
| Legacy.LegacyToneMatrix.CellAt | src/tonematrix.js:167-169 | the tile under an on-grid point has an index inside the grid |
| Legacy.LegacyToneMatrix.constructor | src/tonematrix.js:85-265 | 256 unarmed cells, the 16-row scale, a 200-slot pool, no stroke; a non-empty `d` is loaded and shown as given |
| Legacy.LegacyToneMatrix.SetCopyURL | src/tonematrix.js:329-336 | the share input is the share URL of the code, and the page URL alone iff the code is "" |
| Legacy.LegacyToneMatrix.SetTileValue | src/tonematrix.js:342-367 | only cell x*16+y changes and ends armed iff b; arming an armed tile or disarming an unarmed one changes nothing; arming schedules a fresh event, disarming clears the tile's event |
| Legacy.LegacyToneMatrix.ToggleTileValue | src/tonematrix.js:369-371 | the tile flips and no other cell changes |
| Legacy.LegacyToneMatrix.ClearAllTiles | src/tonematrix.js:323-327 | every cell `false`, every event cancelled, the share input reset |
| Legacy.LegacyToneMatrix.GridToBase64 | src/tonematrix.js:456-482 | the share code of the armed states, "" exactly when no cell is armed |
| Legacy.LegacyToneMatrix.Base64ToGrid | src/tonematrix.js:484-506 | a code that throws changes nothing; a code that loads makes the armed states its bits, and cells already in their bit's state keep their handle |
| Legacy.LegacyToneMatrix.LoadCells | src/tonematrix.js:499-502 | setTileValue of every bit makes the armed states the bits |
| Legacy.LegacyToneMatrix.GetParticleHeatMap | src/tonematrix.js:445-454 | one entry per tile, holding LastHeat over the 200-slot pool |
| Legacy.LegacyToneMatrix.DrawFrame | src/tonematrix.js:260-263 | tickParticles (first call records the time, later ones move and take one life), then the heat map and the sprite of every tile |
| Legacy.LegacyToneMatrix.Burst | src/tonematrix.js:350-357 | every particle of a note's burst starts at its tile's centre |
| Legacy.LegacyToneMatrix.PlayNote | src/tonematrix.js:348-358 | the callback plays the row's note of the scale and spawns the burst in ring order |
| Legacy.LegacyToneMatrix.CanvasClick | src/tonematrix.js:158-173 | the arming latch, setTileValue with the stroke's value, and the share input shows the grid's share URL |
| Legacy.LegacyToneMatrix.PaintTile | src/tonematrix.js:167-169 | the arming latch and setTileValue |
| Legacy.LegacyToneMatrix.ShowCopyURL | src/tonematrix.js:171-172 | setCopyURL of gridToBase64 |
| Legacy.LegacyToneMatrix.MouseDown | src/tonematrix.js:178-181 | arming is reset, so it becomes the opposite of the clicked tile |
| Legacy.LegacyToneMatrix.MouseMove | src/tonematrix.js:174-177 | without exactly the left button nothing changes; with it, a click |
| Legacy.LegacyToneMatrix.ClickAll | src/tonematrix.js:187-189 | every touched cell ends in the stroke's state |
| Legacy.LegacyToneMatrix.ClickPoint | src/tonematrix.js:188 | one touch is clicked |
| Legacy.LegacyToneMatrix.ClickRest | src/tonematrix.js:187-189 | with the stroke's value fixed, every touched cell ends in that state |
| Legacy.LegacyToneMatrix.TouchStart | src/tonematrix.js:182-190 | a single touch resets arming; the touched cells are painted |
| Legacy.LegacyToneMatrix.TouchMove | src/tonematrix.js:191-196 | the touched cells are painted with the stroke's value |
| Legacy.StrokeIsUniform | src/tonematrix.js:168-169 | every cell of a stroke ends armed iff the first click armed, and no other cell changes |
| Legacy.ShareRoundTrip | src/tonematrix.js:456-506 | base64ToGrid(gridToBase64()) leaves every cell and event unchanged |
| Legacy.ShareLinkRestoresTune | src/tonematrix.js:144-152 | a fresh page opened at the share URL, reading `d` with URLSearchParams, starts with the grid's armed states and shows the same share URL |

## Left out

- Tone.js is a foreign library. The Transport is a table of events with fresh ids. Synths,
  filters, `Tone.Offline` pre-rendering, `Player.start`, `context.resume` and latency settings
  are not modelled.
- A scheduling failure is the `accepting` flag of the NotePlayer. The flag is fixed for the life
  of a player, and every player the program builds accepts. In the source each `scheduleNote`
  call catches its own exception (src/NotePlayer.js:70-84), so single calls can fail on their
  own. The model therefore covers only all-or-nothing failure across a load or a stroke:
  `GridState.Grid.LoadCells`, `GridState.Grid.FromBase64` and `App.Painted` do not describe a
  load or stroke in which some calls fail and others succeed. `App.ShareLinkRestoresTune` holds
  because a fresh player accepts.
- JavaScript doubles are modelled as exact reals, so IEEE rounding is not modelled.
  `Particles.BounceOscillates` returns a particle exactly to its start, which doubles do not
  guarantee. `Util.TileOf`, `Util.PixelInReturnedTile` and
  `Legacy.LegacyToneMatrix.GetTileCollision` round the exact quotient down, so a pixel on a tile
  edge can fall in a different tile than the double quotient would give. The volume rules in
  `Volume` and `GridState.ArmingVolume` are exact as well.
- The scheduled callbacks of the modular version are modelled by
  `Synth.SynthInstrument.PlayScheduledNote` alone. The NotePlayer's own callback plays audio
  only.
- `getPlayheadX` and `Tone.Transport.progress` are float arithmetic on the Transport clock. The
  playhead column is a parameter of the draw methods.
- `Date.now()` is the `now` parameter of `Particles.ParticleSystem.Update` and
  `Legacy.LegacyToneMatrix.DrawFrame`.
- The `Math.random`, `Math.cos` and `Math.sin` burst loops are not computed. Their particle
  count depends on float rounding. `Particles.CreateAll` and `Legacy.LegacyToneMatrix.PlayNote`
  take the spawns or the velocities as parameters. `Renderer.DrawPlan` returns the tiles that
  burst rather than spawning their particles.
- Canvas drawing is not modelled: `globalAlpha` values, the sprite sheet, `getSpriteSheet`,
  `drawRoundedRectangle`, the moused-over highlight and the DEBUG particle dots.
- The mouse-position scaling by `getBoundingClientRect` and the device pixel ratio is not
  modelled. Points are given in canvas pixels. Event-listener wiring, ClipboardJS,
  `history.replaceState`, `requestAnimationFrame` and autoplay handling are also left out.
- The constructors take the `d` value as a parameter, required to be ASCII, instead of reading
  `window.location`. `SearchParams.SearchParam` computes that value from a page URL, and both
  ShareLinkRestoresTune methods pass its result.
- `Uri.FormUrlDecode` turns an escape of a byte of 0x80 or more into the character of that
  code, not into UTF-8. A serialized share code is ASCII, so it holds no such escape.
- `SearchParams.QueryOf` does not model the rest of URL parsing: scheme, host, path
  normalisation and the fragment's contents. The ShareLinkRestoresTune methods require the page
  URL to hold no `?` and no `#`, which holds for protocol, `//`, host and pathname joined
  together.
- `Grid.update`, `GridRenderer.update` and `ToneMatrix.update` are left out. They belong to an
  unfinished refactor: `this.data` is passed where a grid object is expected, and
  `GridRenderer.DPR` is never set.
- `Util.assert` only logs, so its calls are omitted. The property it checks in
  `unscheduleNote`, that polyphony stays at or above zero, is proved as an invariant instead.
- The grid length must be a multiple of 8. Otherwise the read past the end packs extra 1 bits.
- canvasClick requires an on-grid point. Off the grid the source passes `undefined`
  coordinates.
- setTileValue requires on-grid coordinates.
- `Renderer.GridRenderer.GetParticleHeatMap` requires `gridWidth <= gridHeight`, so that every
  written index lies inside the heat array.
- `Uri.DecodeURIComponent` treats an escape of a byte of 0x80 or more as a failure, where the
  browser would decode UTF-8. atob rejects every such character anyway, so which codes load is
  unchanged.
- `Uri.EncodeURIComponent` is defined on ASCII text only. It is only applied to base64 text.
- An empty slot `{}` of the single-file pool stays `Empty` in the model. In the source, a tick
  turns its fields into NaN. No later read can see the difference: its heat write lands on index
  NaN, and createParticle overwrites all five fields.
- The event of a note in the single-file version carries no volume (None). Its synth plays at a
  fixed -10.
- `Synth.SynthInstrument.UnscheduleNote` returns `ok = false` with no change for an unknown id,
  where the source throws a TypeError.
- App.ToneMatrix.CellsOf and Legacy.LegacyToneMatrix.CellsOf: helper functions with no
  contract of their own.
- App.ToneMatrix.ClickAll: does not state the share field. After each click it is the share
  field of the grid at that moment, so it ends as that of the final grid. That is left unstated
  to keep the loop proofs small.
- App.ToneMatrix.ClickPoint: does not state the share field, for the same reason.
- App.ToneMatrix.ClickRest: does not state the share field, for the same reason.
- App.ToneMatrix.TouchStart: does not state the share field, for the same reason.
- App.ToneMatrix.TouchMove: does not state the share field, for the same reason.
- Legacy.LegacyToneMatrix.ClickAll: does not state the share input, for the same reason.
- Legacy.LegacyToneMatrix.ClickPoint: does not state the share input, for the same reason.
- Legacy.LegacyToneMatrix.ClickRest: does not state the share input, for the same reason.
- Legacy.LegacyToneMatrix.TouchStart: does not state the share input, for the same reason.
- Legacy.LegacyToneMatrix.TouchMove: does not state the share input, for the same reason.
