# Restaurant floor plan: a Dafny model

This project models the core of a small restaurant floor tool written in
Python with Tkinter. It covers four parts:

- **Seat layout** (`tableshapes.py`). It turns a table record into one point
  per chair. A table has a position, a size, a shape and a capacity. The
  shape is oval, a rectangle seated on two sides, or a rectangle seated on
  four sides.
- **Floor-plan editor** (`floorplan.py`). It covers:
  - the canvas tables, whose record, chairs and outline are moved, resized,
    reshaped and re-seated;
  - the details form, which writes its typed fields back into the selected
    table;
  - the plan, which adds a table under the lowest free table number and
    deletes the selected table;
  - the global table directory that both keep in step.
- **Name helpers** (`util.py`). They cover clamping, case-insensitive
  common-prefix length, and finding the member a typed name means. They also
  build the short name that tells a member apart from others with the same
  first name.
- **Log-in lookup** (`login.py`). It has its own copy of the name search and
  the rule that a numeric entry is a user id.

The Dafny modules follow the Python files:

| Module | Contents |
|---|---|
| `Builtins` | The ASCII behaviour of `str.isnumeric`, `int`, `str`, `str.lower` and `list.remove` |
| `TableShapes` | The layout |
| `Util` | The name helpers |
| `Login` | The log-in lookup |
| `Floorplan` | The editor |

These are the forms the model takes:

- **Loops.** Code that runs a loop is a `method` with a loop. Each one is
  proved equal to a specification function, and the properties are proved
  about that function. Examples:
  - `GenerateSpaced` against `Spaced`;
  - `GenerateOval` against `OvalSeats`;
  - both copies of find_by_name against `BestMatchId`;
  - `LowestFreeNumber` against `LowestFree`.
- **Objects updated in place.** These are classes: `Table`, `TableRecord`,
  `TableDetails`, `FloorPlan` and `Canvas`. Their methods state the whole new
  state, that is, which record fields change and to what.
- **The shared dict.** A table's record is shared between its canvas table and
  the global `tables` directory. It is a `TableRecord` object, and the
  directory is a `map` from table id to record.
- **Python exceptions.** A layout that raises `ZeroDivisionError` is `None`, or
  `ok == false` on the methods. Tkinter swallows an exception raised in a
  callback, so an exception in `edited` means that the remaining calls do not
  run. `unique_name`'s `IndexError` is a `None` result.
- **Python integer semantics.** `//` is floor division and `round` rounds half
  to even. `n & ~1` clears the low bit of the integer.
- **Coordinates.** They are exact reals. An oval seat is kept as its angle
  step `OnOval(cx, cy, rx, ry, k, n)`, which stands for angle k·2π/n.

## Model

| member | source | states |
|---|---|---|
| Builtins.IsNumeric | login.py:63 | `str.isnumeric` on ASCII: non-empty and made of decimal digits only |
| Builtins.ParseNat | login.py:66 | `int(s)` on a string of decimal digits, read left to right |
| Builtins.NatToString | floorplan.py:245 | `str(n)`: a numeric string with no leading zero |
| Builtins.LowerString | util.py:10-11 | `s.lower()` on ASCII: same length, each character lower-cased |
| Builtins.RemoveFirst | floorplan.py:271 | `list.remove`: exactly one element goes, it is one equal to `x`, and every other element stays |
| Builtins.RemoveFirstShape | floorplan.py:271 | What goes is the first occurrence: the list becomes `xs[..k] + xs[k+1..]` for the first index k holding `x` |
| Builtins.ParseNatToString | floorplan.py:245 | `int(str(n)) == n` for every natural n |
| Builtins.NatToStringInjective | floorplan.py:245 | Distinct table numbers are written as distinct strings |
| TableShapes.Spaced | tableshapes.py:75-83 | The values generate_spaced yields: n of them (none when n <= 0), the first at `lower + spacing / 2` and each next one `spacing = (upper - lower) / n` further |
| TableShapes.GenerateSpaced | tableshapes.py:75-83 | The running-`x` loop yields exactly `Spaced(lower, upper, n)`: n values, none when n is 0, starting half a spacing above `lower` |
| TableShapes.SpacedInside | tableshapes.py:78-83 | When lower < upper, every spaced value lies strictly between lower and upper |
| TableShapes.SpacedCentred | tableshapes.py:78-83 | The values are symmetric about the middle of the interval: value i plus value n-1-i is lower + upper |
| TableShapes.SpacedStep | tableshapes.py:78-83 | Neighbouring values are exactly `(upper - lower) / n` apart |
| TableShapes.OvalSeats | tableshapes.py:13-30 | The points generate_oval yields: `capacity` angle steps around the ellipse centred on the table with radii half the size plus 20 |
| TableShapes.GenerateOval | tableshapes.py:13-30 | The running-angle loop yields exactly `OvalSeats(t)`, with point k at angle step k of `capacity` |
| TableShapes.OvalSeatsCount | tableshapes.py:25-30 | generate_oval yields exactly `capacity` points, point i at angle step i |
| TableShapes.TwoSideSeats | tableshapes.py:32-50 | generate_two_side: `capacity // 2` spaced seats over the width at `y_pos - 20`, then the rest at `y_pos + height + 20` |
| TableShapes.TwoSideSplit | tableshapes.py:39-50 | `capacity // 2` seats at `y_pos - 20` and the rest at `y_pos + height + 20`; the bottom count is the top count or one more, and the total is `capacity` |
| TableShapes.TwoSideWithinWidth | tableshapes.py:36-50 | On a table of positive width every two-side seat lies strictly between `x_pos` and `x_pos + width` |
| TableShapes.RoundHalfEven | tableshapes.py:55 | Python's `round` of the exact quotient num / den: nearest integer, ties to the even one |
| TableShapes.RoundHalfEvenNearest | tableshapes.py:54-55 | Python's `round` of `capacity*height/(width+height)` is within half a unit of the quotient, and even on a tie |
| TableShapes.ClearLowBit | tableshapes.py:55 | `n & ~1` is even and is n or n - 1 |
| TableShapes.SideSeats | tableshapes.py:54-55 | The left and right seats together: `round(capacity * height / (width + height)) & ~1` |
| TableShapes.SideSeatsBounds | tableshapes.py:54-55 | The side-seat count is even and between 0 and the capacity when width, height >= 0 and width + height > 0 |
| TableShapes.FourSideSeats | tableshapes.py:52-73 | generate_four_side: `FourSideLayout` at the side-seat count `SideSeats(t)` |
| TableShapes.FourSideLayout | tableshapes.py:57-73 | The two-side layout of `capacity - n` seats, then n // 2 seats spread down the left edge and n // 2 down the right |
| TableShapes.FourSideLayoutSplit | tableshapes.py:57-73 | For any even n in [0, capacity]: the first `capacity - n` seats are the two-side layout of that many, then n/2 at `x_pos - 20` and n/2 at `x_pos + width + 20`; the total is `capacity` |
| TableShapes.FourSideLayoutWithinHeight | tableshapes.py:63-73 | For any even n in [0, capacity], on a table of positive height every side seat lies strictly between `y_pos` and `y_pos + height` |
| TableShapes.FourSideSplit | tableshapes.py:52-73 | Four-side layout: the first `capacity - n` seats are the two-side layout of that many (top and bottom rows), then n/2 at `x_pos - 20` and n/2 at `x_pos + width + 20`; the total is `capacity` |
| TableShapes.FourSideWithinHeight | tableshapes.py:52-73 | On a table of positive height every left or right seat lies strictly between `y_pos` and `y_pos + height` |
| TableShapes.LayoutFails | tableshapes.py:54 | The layout divides by zero: a four-side table with seats whose width + height is 0 |
| TableShapes.GenerateChairs | tableshapes.py:85-93 | The layout raises exactly when a four-side table with seats has width + height == 0 |
| TableShapes.ChairCount | tableshapes.py:91-93 | Every shape yields exactly `capacity` chairs, and a table without seats yields none |
| Util.Clamp | util.py:3-5 | The result is in [low, high] when low <= high; it is x when x is already in range, low when x is below, and high when x is above and not below |
| Util.ClampIdempotent | util.py:3-5 | Clamping twice is clamping once |
| Util.MatchLength | util.py:7-16 | k is at most both lengths, the first k characters agree ignoring case, and the next ones differ when both strings have one |
| Util.MatchLengthUnique | util.py:7-16 | Any k with those three properties is the match length |
| Util.MatchLengthSymmetric | util.py:10-16 | substr_match(a, b) == substr_match(b, a) |
| Util.SubstrMatch | util.py:7-16 | The lower-case-and-scan loop returns `MatchLength(a, b)` |
| Util.FirstMaxStep | util.py:34-36 | One more member moves the best index to it exactly when its match is strictly longer than the best so far |
| Util.FirstMaxSpec | util.py:23-37 | The running maximum is -1 exactly when every match is 0; otherwise it holds the first of the longest matches |
| Util.BestIndex | util.py:18-37 | The index find_by_name settles on is -1 iff no member shares a first character; otherwise it is the first member with the longest match |
| Util.FirstBestUnique | util.py:34-36 | Ties go to one member only, the earliest |
| Util.BestMatchNone | util.py:37 | When no member's "first last" shares a first character with the name, the result is -1 |
| Util.BestMatchFound | util.py:23-37 | Otherwise the result is the id of the first member whose match is maximal over all members |
| Util.SkipIsSound | util.py:28-29 | A member whose full name is shorter than the best match cannot beat it, so the skip never changes the result |
| Util.BestMatchId | util.py:37 | find_by_name's return value: the first best member's id, with no match and an id of 0 both reported as -1 (`max_id or -1`, and `max_member if max_member else -1` at login.py:32) |
| Util.FindByName | util.py:18-37 | The loop, with its skip, returns `BestMatchId`, and an id of 0 comes back as -1 |
| Util.SameFirstName | util.py:44-45 | The candidates are exactly the other members with the target's first name |
| Util.UniqueName | util.py:39-62 | The result starts with the first name and is just the first name when nobody shares it. Otherwise it is first name + last-name prefix of length k (1 <= k <= len) that tells every candidate apart within k characters, or the full last name plus the member id. It raises only if some candidate's last name is shorter than the target's |
| Login.FindByName | login.py:8-32 | The copy with an inner while loop returns the same `BestMatchId` as util.py's copy |
| Login.Lookup | login.py:68-69 | `user_id in members`: the member with that id, or none when no member has it |
| Login.ResolveUser | login.py:61-69 | A numeric entry is read as the user id; any other goes through find_by_name; the user is the member with that id, if any |
| Login.NameLoginFinds | login.py:62-69 | With positive ids, a name log-in finds a user exactly when some member's name shares its first character |
| Floorplan.ParseField | floorplan.py:44-55 | A field that is not numeric reads as 0 |
| Floorplan.ParseFieldOfString | floorplan.py:44-45 | A field that load_table filled with a number reads back as that number |
| Floorplan.ShapeIndex | floorplan.py:61 | `SHAPES.index(name)` is a valid shape whose name is `name` |
| Floorplan.Canvas.CreateItem | floorplan.py:152 | Each created canvas item gets a new id, one past the last |
| Floorplan.TableRecord.constructor | floorplan.py:245-256 | The record holds the given id, number, position, size, shape and capacity |
| Floorplan.Table.constructor | floorplan.py:87-102 | A new table keeps its record's data, has one chair per seat, each on its layout point, is not editing, and has an oval outline iff its shape is the oval |
| Floorplan.Table.Move | floorplan.py:115-119 | Only x_pos and y_pos change. Without `update` the chairs stay as they are; with it they are re-laid out, keeping their items, and when that layout raises they stay exactly where they were |
| Floorplan.Table.Resize | floorplan.py:121-125 | Only width and height change. Without `update` the chairs stay as they are; with it they are re-laid out, keeping their items, and when that layout raises they stay exactly where they were |
| Floorplan.Table.SetBounds | floorplan.py:127-129 | x_pos = left, y_pos = top, width = right - left, height = bottom - top; outline, label, editing flag and canvas are untouched, and the chairs behave as for move and resize, staying put when the layout raises |
| Floorplan.Table.SetShape | floorplan.py:131-143 | Only the shape changes in the record, and the outline is a new oval item for the oval shape and a new rectangle item otherwise |
| Floorplan.Table.SetChairs | floorplan.py:145-161 | Capacity becomes the count, or stays when there is none. There is one chair per seat; old chairs are kept as a prefix and new ones get fresh items. Chair i is centred on point i, or, when the layout raises, no chair has moved |
| Floorplan.Table.UpdatePosition | floorplan.py:173-180 | The record is unchanged and the chairs keep their items and are centred on the layout of the current record; when that layout raises they stay exactly where they were |
| Floorplan.Table.SetEditing | floorplan.py:182-184 | Only the editing flag changes |
| Floorplan.TableDetails.constructor | floorplan.py:38 | The form starts with no table and not loading |
| Floorplan.TableDetails.LoadTable | floorplan.py:65-84 | The form shows the given table and is no longer loading |
| Floorplan.TableDetails.Edited | floorplan.py:41-63 | While loading, nothing changes. Otherwise the number is copied and position, shape and capacity are set from the parsed fields; the outline is a new oval item iff the chosen shape is the oval, and the editing flag and label are untouched. Chairs that existed keep their canvas items. If that first layout raises, the size is not stored and no chair has moved (old chairs kept, new ones at their creation point). Otherwise the size is stored too; the chairs are placed on the final record, or, when that final layout raises, stay on the layout of the record before the size changed |
| Floorplan.TableDetails.EditedSizedFirst | floorplan.py:41-63 | The corrected order: the record ends up exactly what the form shows, the outline matches the chosen shape, editing flag and label are untouched, chairs that existed keep their canvas items, and the chairs follow the record whenever it can be laid out |
| Floorplan.EditedDropsSize | floorplan.py:58-63 | A seated four-side table at 0 x 0 cannot be laid out, but the size typed into the form can, so edited never gets to store it |
| Floorplan.EditedStoresUnloadable | floorplan.py:58-63 | Clearing the height of a seated four-side table 0 wide lays out on the old size and then stores 0 x 0, a record whose layout raises |
| Floorplan.LowestFreeNumber | floorplan.py:237-245 | The search returns the lowest positive number not in use: every number below it is in use, and it is at most the number of tables plus one |
| Floorplan.LowestBound | floorplan.py:238-243 | While every number below `lowest` is in use, `lowest` is at most the table count plus one, so the search ends |
| Floorplan.CoveredBound | floorplan.py:240 | Pigeonhole: no more distinct numbers are in use than there are tables |
| Floorplan.RegisteredAppend | floorplan.py:255-261 | Registering a new record under a new id and appending its table keeps the directory in step with the plan |
| Floorplan.RegisteredRemove | floorplan.py:270-271 | Deleting a table's directory entry and dropping it from the plan keeps them in step |
| Floorplan.FloorPlan.SelectTable | floorplan.py:226-228 | The selection and the form's table become `t`; the plan and the directory are unchanged |
| Floorplan.FloorPlan.constructor | floorplan.py:222-232 | One table per loaded row, in order, under the row's id, the directory in step with the plan, and the last table selected |
| Floorplan.FloorPlan.PlaceTable | floorplan.py:255-259 | The record enters the directory under its id, and the new table is laid out and selects itself |
| Floorplan.FloorPlan.AddTable | floorplan.py:234-261 | The new table is appended with the lowest free number, the defaults and the database row id; it is laid out, editing and selected; the directory gains exactly its record |
| Floorplan.FloorPlan.DeleteTable | floorplan.py:263-272 | With no selection nothing changes. Otherwise the selected table is removed from the plan as `list.remove` would remove it, its id leaves the directory, and the selection is cleared |

## Left out

- Drawing: outline and label coordinates, colours, `tag_bind`, `lift`, `dchars`
  and `insert` are Tkinter calls. The canvas is only the counter that hands out
  item ids. Mouse dragging (`mouse_down`, `mouse_move`), `update_text` and
  `cleanup` are left out for the same reason.
- Oval seat coordinates are not modelled. They come from floating-point
  cos/sin, so each oval seat is kept as its angle step.
- Reals stand in for floats. The linear layouts are stated over exact reals,
  so float rounding in the spacing is not modelled.
- The database is left out. This covers `cursor.execute`, `commit`,
  `FloorPlan.commit`, the row loaders, password hashing and `can_login`. The
  row id that `last_id()` returns is the `rowId` parameter of `AddTable`.
  Loaded rows are the parameter of the `FloorPlan` constructor.
- `util.table_number_in` and `DEFAULT_TABLE` are not part of this model: they
  are not in `util.py` or `floorplan.py`. `NumberInUse` takes
  `table_number_in(tables, n)` to mean that some table is numbered `str(n)`.
  The defaults are a parameter of `AddTable`.
- `FloorPlan.set_editing` and `toggle_editing` are left out. They redraw
  buttons and call `commit`. `Table.SetEditing` is modelled.
- Floorplan.Table.UpdatePosition: does not call the select callback. The
  callback is a closure over the plan, so `PlaceTable` calls `SelectTable`
  after constructing the table.
- Floorplan.FloorPlan.constructor: does not state each new table's data or
  chair placement. `PlaceTable` states both for each single table.
- Floorplan.FloorPlan.constructor: requires every loaded row to lay out,
  because `Table.__init__` raises otherwise (floorplan.py:99). A saved table
  can be such a row: `EditedStoresUnloadable` shows edited storing a seated
  four-side table at 0 x 0, and `commit` (floorplan.py:274-285) saves it. No
  corrected loader is modelled: the source does not show whether the form
  should refuse that size or loading should tolerate it.
- Floorplan.FloorPlan.DeleteTable: the model starts `selected` as null. The
  source only sets `self.selected` in `select_table`, so `delete_table`
  before any selection raises `AttributeError`.
- Floorplan.TableDetails.Edited: requires a table and a name from the shape
  menu whenever the form is not loading. The source fills the form only from
  a table, and with no table it disables every field.
- Floorplan.Table.constructor: requires a record that lays out. In the source,
  construction raises otherwise.
- Negative positions are allowed, but widths, heights and capacities are
  not. The form only accepts digits. `WellFormed` excludes negative sizes and
  `SetBounds` requires left <= right and top <= bottom.
- Util.UniqueName: proves only soundness, not the minimality the docstring
  claims. Removing from the list it iterates over can skip candidates, and
  the result can be longer than needed.
- Lower-casing and `isnumeric` are ASCII only. Unicode case folding and
  non-ASCII digits are not modelled.
- The member directory is a sequence of records in the dict's iteration
  order.

## Findings

| source | as written | input that shows it | evidently intended | confidence | as-written member | corrected member |
|---|---|---|---|---|---|---|
| floorplan.py:60-63 | `edited` calls `set_chairs(capacity)` before `resize(width, height)`, so the first layout uses the old size | A four-side table with capacity 4: the user clears the width field (the form then shows 0), then the height field, so the record is stored at 0 x 0 and its re-layout raises. Typing a width of 100 then re-lays out with the old 0 x 0 first, which divides by width + height = 0 and raises before the new width is stored; every later edit that keeps a seated four-side table stops at the same point (choosing another shape or capacity 0 gets out) | Store the typed size before laying out, so the record holds what the form shows and the layout can succeed | not executed | Floorplan.TableDetails.Edited, Floorplan.EditedDropsSize | Floorplan.TableDetails.EditedSizedFirst |
