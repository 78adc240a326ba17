# Table zone grid layout

A model of the grid layout engine of Cockatrice's table zone, the part of the
play surface where a player's permanents lie. Cards sit on a discrete grid of
columns and three rows. Every three consecutive columns of a row form a stack
group. The zone:

- keeps a table of stack-group widths, so that a group holding stacked cards,
  or one card with attachments, is drawn wider and pushes the later groups of
  its row to the right;
- maps grid points to pixel positions and back;
- places every card and its attachments and gives each a paint order;
- collects the arrows whose paths need a refresh;
- resizes itself to its contents;
- probes for a free slot when a card is dropped;
- decides how a tap toggle over a selection behaves.

The zone is a class (`TableZoneModel.TableZone`) and the cards are objects
(`TableZoneModel.CardItem`). Their methods run the loops of the zone's own code
and are proved against value-level definitions in four modules:

- `StackWidths`: the width table;
- `GridMapping`: both coordinate maps;
- `Placement`: the position pass as a list of writes, and the arrows;
- `Resize`: the width the zone needs.

`Tapping` covers the tap decision. `Geometry` holds the layout constants and
the C++ arithmetic the code relies on: truncating `/` and `%`, C `round`, and
the `(int)` cast.

The layout constants are declared in headers that are not part of this model.
They are abstract positive constants here. Any further relation a property
needs between them is a precondition of that property.

The position pass is specified as the sequence of position and paint-order
writes it performs (`Placement.Writes`). Each card ends where the last write to
it puts it (`Placement.FinalPos`, `Placement.FinalZ`), and `PlacedBy` states
this for every card the pass may move. That holds even when one card is written
twice, for instance when it is both in the zone's list and attached to another
card. The closed forms of a holder's and an attachment's final position are
lemmas that require that no card is written twice.

A group can become narrower when a card joins it: a lone card with two or more
attachments is wider than a group of two plain cards
(`StackWidths.WidthNotMonotone`).

The paint order weighs a pixel downwards as much as 1000 pixels to the right:
an item draws above another exactly when 1000 times its vertical lead plus its
horizontal lead is positive (`Placement.ZValueLess`). An item of a lower row
lies at least `ROW_PITCH - 35` pixels lower, so it draws on top unless it lies
at least `1000 * (ROW_PITCH - 35)` pixels to the left.

## Model

| member | source | states |
|---|---|---|
| `GridMapping.IsInverted` | cockatrice/src/tablezone.cpp:67-70 | the table is inverted exactly when the player's mirroring flag and the vertical-inversion setting differ |
| `GridMapping.RowLabelInvolution` | cockatrice/src/tablezone.cpp:316-317 | relabelling a row for inversion twice gives back the row, so toggling inversion twice restores every position |
| `GridMapping.InversionRelabelsRows` | cockatrice/src/tablezone.cpp:312-319 | inversion leaves x unchanged, because the width lookup uses the grid's own row; the y under the other inversion is the y of the mirrored row `2 - row` |
| `GridMapping.UniformRow` | cockatrice/src/tablezone.cpp:312-314 | when none of groups 0 .. k-1 of a row has a stored width, whatever other rows store, group `k` starts `k` times one card plus one padding from the margin |
| `GridMapping.GroupStartGrows` | cockatrice/src/tablezone.cpp:351-355 | each group advances the walk by at least one card plus one padding, which is why the walk of `mapToGrid` ends |
| `GridMapping.FindGroupIs` | cockatrice/src/tablezone.cpp:349-355 | the walk stops in exactly the group whose span, padding included, first reaches `x + 1` |
| `GridMapping.ColumnBounds` | cockatrice/src/tablezone.cpp:336-358 | the returned column is never negative and lies in the walk's group or in the last sub-column of the group before it (`3b-1 .. 3b+2`) |
| `GridMapping.RowBounds` | cockatrice/src/tablezone.cpp:39-39 | with the zone's fixed height, the returned row is 0, 1 or 2, provided twice the box line plus 20 is below half the row pitch |
| `GridMapping.ClampToBoundary` | cockatrice/src/tablezone.cpp:336-343 | a point outside the play area maps to the same grid point as its clamped counterpart on the boundary |
| `GridMapping.RoundTrip` | cockatrice/src/tablezone.cpp:309-360 | for column >= 0 and row 0..2, with the same width table and inversion, `mapToGrid(mapFromGrid(g)) == g` whenever the mapped point is not clamped and the diagonal nudge (at most 20) is below half the row pitch |
| `StackWidths.CountsAreOccupancy` | cockatrice/src/tablezone.cpp:174-182 | the count map holds exactly the keys of placed cards, each with the number of placed cards in that group |
| `StackWidths.WidthTableKeys` | cockatrice/src/tablezone.cpp:183-195 | after the width pass, a key is in the table exactly when some card with column other than -1 has it |
| `StackWidths.WidthTableValue` | cockatrice/src/tablezone.cpp:188-194 | the stored width is `CARD_WIDTH * (1 + attached/3)` for a group with one occupant, else `CARD_WIDTH * (1 + (count-1)/3)` |
| `StackWidths.WidthTableIsValid` | cockatrice/src/tablezone.cpp:183-195 | every stored width is at least one card wide |
| `StackWidths.WidthNotMonotone` | cockatrice/src/tablezone.cpp:188-194 | a second card joining a group whose single occupant has two or more attachments makes the group narrower |
| `Placement.AttachmentFan` | cockatrice/src/tablezone.cpp:206-221 | each attachment lies left of its holder and of the attachment before it, and never left of the grid x; the last one lands on the grid x |
| `Placement.ZValueOrder` | cockatrice/src/tablezone.cpp:213-223 | of two items in one column the lower, and of two on one line the one further right, gets the higher paint order |
| `Placement.ZValueLess` | cockatrice/src/tablezone.cpp:213-223 | item `q` gets a higher paint order than item `p` exactly when `1000 * (q.y - p.y) + (q.x - p.x) > 0` |
| `Placement.HolderPlacement` | cockatrice/src/tablezone.cpp:202-213 | a placed card with `n` attachments ends `n` thirds of a card right of its grid position, 15 lower when `n > 0`, with the matching paint order, when no card is written twice |
| `Placement.AttachmentPlacement` | cockatrice/src/tablezone.cpp:215-223 | the `j`-th attachment ends `j` thirds of a card left of its holder, 5 below the grid position, with the matching paint order, when no card is written twice |
| `Placement.WrittenIffReached` | cockatrice/src/tablezone.cpp:197-231 | the pass writes exactly the cards on the grid and the cards attached to them |
| `Placement.UnreachedStays` | cockatrice/src/tablezone.cpp:199-201 | a card the pass does not reach, such as one with column -1 attached to no placed card, keeps its position and paint order |
| `Placement.ArrowsMembers` | cockatrice/src/tablezone.cpp:224-230 | an arrow is collected exactly when it starts or ends at a placed card or at an attachment of one |
| `Resize.XMaxIsMaximum` | cockatrice/src/tablezone.cpp:278-281 | the scan yields 0 or the truncated x of some card, and every card starts less than one pixel right of it |
| `Resize.MinimumWidthBounds` | cockatrice/src/tablezone.cpp:40-40 | the needed width is never below the zone's initial width, and leaves two cards, both margins and both box lines right of every card |
| `Resize.MinimumWidthWhenNarrow` | cockatrice/src/tablezone.cpp:282-285 | with every card left of `MIN_WIDTH - 2*CARD_WIDTH`, the needed width is the initial width |
| `Tapping.CommandsMembers` | cockatrice/src/tablezone.cpp:252-262 | a command is produced exactly for each selected card whose tapped state differs from the target, with value "1" exactly when tapping |
| `Tapping.AllTappedUntapsAll` | cockatrice/src/tablezone.cpp:245-262 | when every selected card is tapped, nothing is tapped and every card is untapped, in selection order |
| `Tapping.SomeUntappedTapsThose` | cockatrice/src/tablezone.cpp:245-262 | when some selected card is untapped, the decision is to tap, and exactly the untapped cards get a "1" command |
| `Tapping.ToggleSettles` | cockatrice/src/tablezone.cpp:245-262 | once the commands take effect, every selected card has the decided state, so the next toggle of a non-empty selection decides the opposite |
| `TableZoneModel.TableZone.constructor` | cockatrice/src/tablezone.cpp:39-41 | a new zone has no cards, an empty width table, the initial height and width, and the minimum width as its current minimum |
| `TableZoneModel.TableZone.AddCardImpl` | cockatrice/src/tablezone.cpp:131-134 | the card is appended to the zone's list and gets the given grid point, which is then occupied |
| `TableZoneModel.TableZone.GetCardFromGrid` | cockatrice/src/tablezone.cpp:294-300 | null exactly when no card sits at the grid point, else the first such card in list order |
| `TableZoneModel.TableZone.MapFromGrid` | cockatrice/src/tablezone.cpp:309-325 | the loop yields `GridToPixel`: the margin, the sub-column shift and the widths and paddings of the earlier groups in x; the box line, the relabelled row's pitch and the diagonal nudge in y |
| `TableZoneModel.TableZone.WalkGroups` | cockatrice/src/tablezone.cpp:349-355 | the do-while walk ends in the group `FindGroup` names, with the offset at which that group starts |
| `TableZoneModel.TableZone.MapToGrid` | cockatrice/src/tablezone.cpp:328-360 | the clamping, rounding, walk and sub-column division yield `PixelToGrid` |
| `TableZoneModel.TableZone.ClosestGridPoint` | cockatrice/src/tablezone.cpp:363-372 | the result is the pixel position of a slot of the stack group under the point nudged by (1, 1): the first free one of its first two columns, or the third column when both are taken |
| `TableZoneModel.TableZone.CountStacks` | cockatrice/src/tablezone.cpp:174-182 | the count loop builds `Counts` of the cards |
| `TableZoneModel.TableZone.FillWidths` | cockatrice/src/tablezone.cpp:183-195 | the width loop rebuilds the table from the counts, as `InsertWidths` does |
| `TableZoneModel.TableZone.ComputeWidths` | cockatrice/src/tablezone.cpp:172-195 | the table becomes `BuildWidthTable` of the cards, so every width stays at least one card wide |
| `TableZoneModel.TableZone.SetPlacement` | cockatrice/src/tablezone.cpp:212-213 | a card takes a new position and paint order, one more write of the pass |
| `TableZoneModel.TableZone.PlaceAttachments` | cockatrice/src/tablezone.cpp:215-227 | the attachments are placed as `AttachmentWrites` says, and their arrows are collected in order |
| `TableZoneModel.TableZone.PlaceCard` | cockatrice/src/tablezone.cpp:202-230 | a card on the grid and its attachments are placed as `HolderWrites` says, and their arrows are collected |
| `TableZoneModel.TableZone.PlaceStep` | cockatrice/src/tablezone.cpp:197-231 | one card of the position loop: skipped when off the grid, placed otherwise |
| `TableZoneModel.TableZone.PlaceCards` | cockatrice/src/tablezone.cpp:197-231 | every card of the zone or attached to one ends where the last of `Writes` to it puts it, or keeps its position and paint order when no write names it; the collected arrow list is `Arrows` |
| `TableZoneModel.TableZone.ReorganizeCards` | cockatrice/src/tablezone.cpp:169-239 | the width table is rebuilt, the cards are placed, each collected arrow is refreshed once (a set), and the zone is resized |
| `TableZoneModel.TableZone.PlaceAndResize` | cockatrice/src/tablezone.cpp:197-237 | the position pass, the arrow set and the resize, from the state the reorganisation reached after the width pass |
| `TableZoneModel.TableZone.RightmostX` | cockatrice/src/tablezone.cpp:278-281 | the scan yields `XMax` of the cards' x positions |
| `TableZoneModel.TableZone.NeededWidth` | cockatrice/src/tablezone.cpp:278-285 | the width the resize settles on is `MinimumWidth` of the cards' x positions |
| `TableZoneModel.TableZone.ResizeToContents` | cockatrice/src/tablezone.cpp:276-291 | the current minimum and the width become the needed width, and the size-changed flag is raised exactly when the width changed |
| `TableZoneModel.TableZone.ResizeTwice` | cockatrice/src/tablezone.cpp:276-291 | a second resize right after the first reports no size change, and the width is the needed width |
| `TableZoneModel.TableZone.ToggleTapped` | cockatrice/src/tablezone.cpp:242-262 | the first loop decides `TapAll` of the selection, the second produces `TapCommands` |

## Left out

- Painting, the background pixmap, the bounding rectangle and hover handling: they are presentation only.
- The signal connections and the graphics-item calls (`setParentItem`, `setVisible`, `update`, `prepareGeometryChange`, `setCacheMode`): they are presentation only. The `sizeChanged` signal is a returned flag.
- `handleDropEvent` and `handleDropEventByGrid` only build a move command and send it over the network.
- `getCardFromCoords` is `mapToGrid` followed by `getCardFromGrid`. It is not a separate member.
- `takeCard`: the base zone it delegates to is not part of this model.
- `toggleTapped` builds protobuf messages and sends them. The model keeps each command as a card id and a value, and does not model the send.
- The selection comes from the scene, and `qgraphicsitem_cast` is taken to yield a card. Both are replaced by an input sequence of cards.
- The player's mirroring flag and the vertical-inversion setting live outside the zone. They are two fields of the model zone.
- `ArrowItem::updatePath` is a foreign call. The refreshed arrows are the returned set of arrow identities.
- The width table `gridPointWidth` is declared in tablezone.h, which is not part of this model. The model takes its values to be reals, so the widths inserted at tablezone.cpp:192 and :194 are stored exactly; an int-valued map would truncate them unless CARD_WIDTH is a multiple of 3.
- `qreal` is IEEE double precision. The model uses exact reals, so rounding error is not modelled.
- The layout constants are defined in headers that are not part of this model. Their values, and any relation between them other than positivity, are not modelled.
- The stack key `col/3 + row*1000` is kept as the code computes it. Groups of index 1000 or more (column 3000 onwards), and groups at negative columns other than -1, share keys with groups of other rows, and no lemma claims that distinct groups get distinct keys.
- Placement.HolderPlacement: states the holder's final position only when no card is written twice, because a later write to the same card would override it. tablezone.cpp does not rule that out: a card of the zone's list that is also attached to an earlier placed card is written twice.
- Placement.AttachmentPlacement: requires that no card is written twice, for the same reason.
- GridMapping.RoundTrip: requires that the mapped point is not clamped. A point at the right or bottom edge can be clamped and map elsewhere.
- GridMapping.RowBounds: requires that twice the box line plus 20 is below half the row pitch, because the header constants are not known.
