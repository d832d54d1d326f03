/**
 The floor-plan editor (floorplan.py): tables on a canvas that can be moved,
 resized, reshaped and given a number of chairs, a details form that writes
 its fields back into the selected table, and the plan that adds and deletes
 tables.

 The canvas is modelled only as the counter it hands item ids out from: every
 created item gets the next id. What is drawn, and where the outline and the
 label go, is not modelled; for chairs the model keeps the point each chair's
 32x32 oval is centred on.
 */
module Floorplan {
  import opened Builtins
  import opened TableShapes

  /** `int(s) if s.isnumeric() else 0`: how the details form reads a number field. */
  function ParseField(s: string): (n: nat)
    ensures !IsNumeric(s) ==> n == 0
  {
    if IsNumeric(s) then ParseNat(s) else 0
  }

  /** A field holding a number written out in digits reads back as that number. */
  lemma ParseFieldOfString(n: nat)
    ensures ParseField(NatToString(n)) == n
  {
    ParseNatToString(n);
  }

  /** `SHAPES.index(name)`. */
  function ShapeIndex(name: string): (i: nat)
    requires name in Shapes
    ensures i < |Shapes| && Shapes[i] == name
  {
    if name == Shapes[0] then 0 else if name == Shapes[1] then 1 else 2
  }

  class Canvas {
    var lastItem: nat

    constructor ()
      ensures lastItem == 0
    {
      lastItem := 0;
    }

    /** Any `create_*` call: the new item gets the next id. */
    method CreateItem() returns (item: nat)
      modifies this
      ensures item == old(lastItem) + 1 && lastItem == item
    {
      lastItem := lastItem + 1;
      item := lastItem;
    }
  }

  /** A chair: its canvas item and the point its 32x32 oval is centred on. */
  datatype Chair = Chair(item: nat, centre: Point)

  /** A new chair is created at (0, 0, 32, 32), i.e. centred on (16, 16). */
  const NewChairCentre: Point := Exact(16.0, 16.0)

  /** The canvas item drawn for the table itself. */
  datatype Outline = NoOutline | OvalOutline(item: nat) | RectangleOutline(item: nat)

  function Items(chairs: seq<Chair>): (items: seq<nat>)
    ensures |items| == |chairs| && forall i :: 0 <= i < |chairs| ==> items[i] == chairs[i].item
  {
    seq(|chairs|, i requires 0 <= i < |chairs| => chairs[i].item)
  }

  /** The layout of `d` succeeds and chair i sits on its i-th point. */
  ghost predicate PlacedOn(chairs: seq<Chair>, d: TableData) {
    var layout := if 0 <= d.shape < |Shapes| then GenerateChairs(d) else None;
    && layout.Some?
    && |layout.value| == |chairs|
    && forall i :: 0 <= i < |chairs| ==> chairs[i].centre == layout.value[i]
  }

  /** A table's record, the dict shared by the table on the canvas and the global
      table directory. */
  class TableRecord {
    const tableId: int
    var tableNumber: string
    var capacity: int
    var xPos: int
    var yPos: int
    var width: int
    var height: int
    var shape: int

    constructor (tableId: int, tableNumber: string, d: TableData)
      ensures this.tableId == tableId && this.tableNumber == tableNumber && Data() == d
    {
      this.tableId := tableId;
      this.tableNumber := tableNumber;
      capacity, xPos, yPos, width, height, shape := d.capacity, d.xPos, d.yPos, d.width, d.height, d.shape;
    }

    function Data(): TableData
      reads this
    {
      TableData(xPos, yPos, width, height, shape, capacity)
    }
  }

  /** A table on the canvas: the record it edits, its chairs and its outline. */
  class Table {
    const record: TableRecord
    const canvas: Canvas
    var chairs: seq<Chair>
    var outline: Outline
    var labelItem: nat
    var editing: bool

    /** The record can be laid out and there is one chair per seat. */
    ghost predicate Valid()
      reads this, record
    {
      WellFormed(record.Data()) && |chairs| == record.capacity
    }

    /** Chair i sits on the i-th point the layout generates for the record as it now stands. */
    ghost predicate ChairsPlaced()
      reads this, record
    {
      PlacedOn(chairs, record.Data())
    }

    /** Table.__init__: apply the record's position and size, give it its chairs,
        draw its shape and lay the chairs out. Construction fails in the source
        when the layout raises, so the record must be one that lays out. */
    constructor (record: TableRecord, canvas: Canvas)
      requires WellFormed(record.Data()) && !LayoutFails(record.Data())
      modifies record, canvas
      ensures this.record == record && this.canvas == canvas
      ensures Valid() && ChairsPlaced() && !editing
      ensures record.Data() == old(record.Data()) && record.tableNumber == old(record.tableNumber)
      ensures outline.OvalOutline? <==> record.shape == Oval
      ensures outline != NoOutline
      ensures forall i :: 0 <= i < |chairs| ==> chairs[i].item == old(canvas.lastItem) + 2 + i
    {
      this.record := record;
      this.canvas := canvas;
      editing := false;
      chairs := [];
      outline := NoOutline;
      var item := canvas.CreateItem();
      labelItem := item;
      new;
      var _ := Move(record.xPos, record.yPos, false);
      var _ := Resize(record.width, record.height, false);
      var _ := SetChairs(Some(record.capacity));
      SetShape(record.shape);
      var _ := UpdatePosition();
    }

    /** move: sets the position only; with `update` it also re-lays the chairs
        out. `ok` is false when that layout raised. */
    method Move(x: int, y: int, update: bool) returns (ok: bool)
      requires WellFormed(record.Data())
      modifies this, record, canvas
      ensures record.Data() == old(record.Data()).(xPos := x, yPos := y)
      ensures record.tableNumber == old(record.tableNumber)
      ensures outline == old(outline) && labelItem == old(labelItem) && editing == old(editing)
      ensures !update || old(Valid()) ==> canvas.lastItem == old(canvas.lastItem)
      ensures !update ==> ok && chairs == old(chairs)
      ensures update && old(Valid()) ==> Valid() && Items(chairs) == Items(old(chairs))
      ensures update && old(Valid()) ==> ok == !LayoutFails(record.Data()) && (ok ==> ChairsPlaced())
      ensures update && old(Valid()) && !ok ==> chairs == old(chairs)
    {
      record.xPos := x;
      record.yPos := y;
      ok := true;
      if update {
        ok := UpdatePosition();
      }
    }

    /** resize: sets the size only; with `update` it also re-lays the chairs out. */
    method Resize(width: nat, height: nat, update: bool) returns (ok: bool)
      requires WellFormed(record.Data())
      modifies this, record, canvas
      ensures record.Data() == old(record.Data()).(width := width, height := height)
      ensures record.tableNumber == old(record.tableNumber)
      ensures outline == old(outline) && labelItem == old(labelItem) && editing == old(editing)
      ensures !update || old(Valid()) ==> canvas.lastItem == old(canvas.lastItem)
      ensures !update ==> ok && chairs == old(chairs)
      ensures update && old(Valid()) ==> Valid() && Items(chairs) == Items(old(chairs))
      ensures update && old(Valid()) ==> ok == !LayoutFails(record.Data()) && (ok ==> ChairsPlaced())
      ensures update && old(Valid()) && !ok ==> chairs == old(chairs)
    {
      record.width := width;
      record.height := height;
      ok := true;
      if update {
        ok := UpdatePosition();
      }
    }

    /** set_bounds: the table spans [left, right] x [top, bottom]. */
    method SetBounds(left: int, top: int, right: int, bottom: int, update: bool) returns (ok: bool)
      requires WellFormed(record.Data())
      requires left <= right && top <= bottom
      modifies this, record, canvas
      ensures record.Data() == old(record.Data()).(xPos := left, yPos := top, width := right - left, height := bottom - top)
      ensures record.tableNumber == old(record.tableNumber)
      ensures outline == old(outline) && labelItem == old(labelItem) && editing == old(editing)
      ensures !update || old(Valid()) ==> canvas.lastItem == old(canvas.lastItem)
      ensures !update ==> ok && chairs == old(chairs)
      ensures update && old(Valid()) ==> Valid() && Items(chairs) == Items(old(chairs))
      ensures update && old(Valid()) ==> ok == !LayoutFails(record.Data()) && (ok ==> ChairsPlaced())
      ensures update && old(Valid()) && !ok ==> chairs == old(chairs)
    {
      var _ := Move(left, top, false);
      ok := Resize(right - left, bottom - top, update);
    }

    /** set_shape: records the shape and replaces the outline item, an oval for the
        oval shape and a rectangle otherwise. The chairs are not moved. */
    method SetShape(shape: int)
      requires 0 <= shape < |Shapes|
      modifies this, record, canvas
      ensures record.Data() == old(record.Data()).(shape := shape)
      ensures record.tableNumber == old(record.tableNumber)
      ensures chairs == old(chairs) && labelItem == old(labelItem) && editing == old(editing)
      ensures canvas.lastItem == old(canvas.lastItem) + 1
      ensures outline == if shape == Oval then OvalOutline(canvas.lastItem) else RectangleOutline(canvas.lastItem)
    {
      record.shape := shape;
      var item := canvas.CreateItem();
      if shape == Oval {
        outline := OvalOutline(item);
      } else {
        outline := RectangleOutline(item);
      }
    }

    /** set_chairs: optionally sets the capacity, appends new chairs or pops
        surplus ones until there is one per seat, then centres chair i on the
        i-th generated point. `ok` is false when generating the points raised,
        in which case no chair has been moved. */
    method SetChairs(count: Option<nat>) returns (ok: bool)
      requires WellFormed(record.Data())
      modifies this, record, canvas
      ensures Valid()
      ensures record.Data() == old(record.Data()).(capacity := if count.Some? then count.value else old(record.capacity))
      ensures record.tableNumber == old(record.tableNumber)
      ensures outline == old(outline) && labelItem == old(labelItem) && editing == old(editing)
      ensures var grown := record.capacity - |old(chairs)|;
        canvas.lastItem == old(canvas.lastItem) + (if grown > 0 then grown else 0)
      ensures forall i :: 0 <= i < |chairs| && i < |old(chairs)| ==> chairs[i].item == old(chairs)[i].item
      ensures forall i :: |old(chairs)| <= i < |chairs| ==> chairs[i].item == old(canvas.lastItem) + 1 + (i - |old(chairs)|)
      ensures ok == !LayoutFails(record.Data())
      ensures ok ==> ChairsPlaced()
      ensures !ok ==> forall i :: 0 <= i < |chairs| ==>
        chairs[i].centre == if i < |old(chairs)| then old(chairs)[i].centre else NewChairCentre
    {
      if count.Some? {
        record.capacity := count.value;
      }
      var cs := chairs;
      if record.capacity > |cs| {
        for i := |cs| to record.capacity
          modifies canvas
          invariant |cs| == i
          invariant canvas.lastItem == old(canvas.lastItem) + (i - |old(chairs)|)
          invariant forall k :: 0 <= k < |old(chairs)| ==> cs[k] == old(chairs)[k]
          invariant forall k :: |old(chairs)| <= k < i ==>
            cs[k] == Chair(old(canvas.lastItem) + 1 + (k - |old(chairs)|), NewChairCentre)
        {
          var item := canvas.CreateItem();
          cs := cs + [Chair(item, NewChairCentre)];
        }
      } else {
        while |cs| > record.capacity
          invariant record.capacity <= |cs| <= |old(chairs)|
          invariant cs == old(chairs)[..|cs|]
        {
          cs := cs[..|cs| - 1];
        }
      }
      chairs := cs;
      var layout := GenerateChairs(record.Data());
      if layout.None? {
        return false;
      }
      ChairCount(record.Data());
      var points := layout.value;
      for i := 0 to |points|
        invariant |cs| == |points|
        invariant forall k :: 0 <= k < i ==> cs[k] == chairs[k].(centre := points[k])
        invariant forall k :: i <= k < |points| ==> cs[k] == chairs[k]
      {
        cs := cs[i := cs[i].(centre := points[i])];
      }
      chairs := cs;
      ok := true;
    }

    /** update_position: lays the chairs out again for the current record (the
        outline and label coordinates it also sets are not modelled). */
    method UpdatePosition() returns (ok: bool)
      requires WellFormed(record.Data())
      modifies this, record, canvas
      ensures record.Data() == old(record.Data()) && record.tableNumber == old(record.tableNumber)
      ensures outline == old(outline) && labelItem == old(labelItem) && editing == old(editing)
      ensures old(Valid()) ==> canvas.lastItem == old(canvas.lastItem) && Items(chairs) == Items(old(chairs))
      ensures Valid()
      ensures ok == !LayoutFails(record.Data())
      ensures ok ==> ChairsPlaced()
      ensures old(Valid()) && !ok ==> chairs == old(chairs)
    {
      ok := SetChairs(None);
    }

    /** set_editing (the text it redraws is not modelled). */
    method SetEditing(editing: bool)
      modifies this
      ensures this.editing == editing
      ensures chairs == old(chairs) && outline == old(outline) && labelItem == old(labelItem)
    {
      this.editing := editing;
    }
  }

  /** The details form beside the canvas: the table it edits and whether it is
      being filled from that table (when changes are not written back). */
  class TableDetails {
    var table: Table?
    var loading: bool

    constructor ()
      ensures table == null && !loading
    {
      table := null;
      loading := false;
    }

    /** load_table: the form now shows `t`; it is filled with `loading` set. */
    method LoadTable(t: Table?)
      modifies this
      ensures table == t && !loading
    {
      table := t;
      loading := true;
      loading := false;
    }

    /** edited: while the form is being filled, nothing. Otherwise each number
        field reads as its digits or 0, the table number is copied as typed, and
        then, in the source's order, move (without re-layout), set_shape,
        set_chairs with the new capacity, and resize with re-layout. The first
        layout runs before the new size is applied, and when it raises the
        remaining calls do not run: `completed` tells whether they all did. */
    method Edited(number: string, x: string, y: string, width: string, height: string,
                  capacity: string, shapeName: string) returns (completed: bool)
      requires !loading ==> table != null && table.Valid()
      requires shapeName in Shapes
      modifies if table == null then {} else {table, table.record, table.canvas}
      ensures loading ==> completed && (table != null ==> unchanged(table, table.record, table.canvas))
      ensures !loading ==>
        var r := table.record;
        var laid := old(r.Data()).(xPos := ParseField(x), yPos := ParseField(y),
                                   shape := ShapeIndex(shapeName), capacity := ParseField(capacity));
        && table.Valid()
        && r.tableNumber == number
        && table.editing == old(table.editing) && table.labelItem == old(table.labelItem)
        && table.outline != NoOutline
        && (table.outline.OvalOutline? <==> ShapeIndex(shapeName) == Oval)
        && (forall i :: 0 <= i < |table.chairs| && i < |old(table.chairs)| ==> table.chairs[i].item == old(table.chairs)[i].item)
        && (LayoutFails(laid) ==>
              && !completed && r.Data() == laid
              && (forall i :: 0 <= i < |table.chairs| && i < |old(table.chairs)| ==> table.chairs[i] == old(table.chairs)[i])
              && (forall i :: |old(table.chairs)| <= i < |table.chairs| ==> table.chairs[i].centre == NewChairCentre))
        && (!LayoutFails(laid) ==>
              && r.Data() == laid.(width := ParseField(width), height := ParseField(height))
              && completed == !LayoutFails(r.Data())
              && (completed ==> table.ChairsPlaced())
              && (!completed ==> PlacedOn(table.chairs, laid)))
    {
      if loading {
        return true;
      }
      var xv := ParseField(x);
      var yv := ParseField(y);
      var w := ParseField(width);
      var h := ParseField(height);
      var cap := ParseField(capacity);
      table.record.tableNumber := number;
      var _ := table.Move(xv, yv, false);
      table.SetShape(ShapeIndex(shapeName));
      completed := table.SetChairs(Some(cap));
      if !completed {
        return;
      }
      completed := table.Resize(w, h, true);
    }

    /** edited with the size applied before the first layout: the record ends up
        holding exactly what the form shows, whatever the old size was, and the
        chairs follow it whenever it can be laid out. */
    method EditedSizedFirst(number: string, x: string, y: string, width: string, height: string,
                            capacity: string, shapeName: string) returns (completed: bool)
      requires !loading ==> table != null && table.Valid()
      requires shapeName in Shapes
      modifies if table == null then {} else {table, table.record, table.canvas}
      ensures loading ==> completed && (table != null ==> unchanged(table, table.record, table.canvas))
      ensures !loading ==>
        && table.Valid()
        && table.record.tableNumber == number
        && table.editing == old(table.editing) && table.labelItem == old(table.labelItem)
        && table.outline != NoOutline
        && (table.outline.OvalOutline? <==> ShapeIndex(shapeName) == Oval)
        && (forall i :: 0 <= i < |table.chairs| && i < |old(table.chairs)| ==> table.chairs[i].item == old(table.chairs)[i].item)
        && table.record.Data() == TableData(ParseField(x), ParseField(y), ParseField(width), ParseField(height),
                                            ShapeIndex(shapeName), ParseField(capacity))
        && completed == !LayoutFails(table.record.Data())
        && (completed ==> table.ChairsPlaced())
    {
      if loading {
        return true;
      }
      table.record.tableNumber := number;
      var _ := table.Move(ParseField(x), ParseField(y), false);
      var _ := table.Resize(ParseField(width), ParseField(height), false);
      table.SetShape(ShapeIndex(shapeName));
      completed := table.SetChairs(Some(ParseField(capacity)));
    }
  }

  /** A four-sided table with seats and size 0 x 0 cannot be laid out, while the
      same table at the size typed into the form can. Edited runs the first
      layout before applying the size, so on such a table it stops before the
      new size is stored (its `LayoutFails(laid)` case), and every later edit
      stops at the same point. */
  lemma EditedDropsSize(typedWidth: nat, typedHeight: nat)
    requires typedWidth + typedHeight > 0
    ensures var stuck := TableData(0, 0, 0, 0, FourSide, 4);
      var sized := stuck.(width := typedWidth, height := typedHeight);
      && LayoutFails(stuck)
      && GenerateChairs(stuck) == None
      && GenerateChairs(sized).Some? && |GenerateChairs(sized).value| == 4
  {
    ChairCount(TableData(0, 0, typedWidth, typedHeight, FourSide, 4));
  }

  /** How a record that cannot be laid out gets stored: on a seated four-side table
      0 wide and 10 high, clearing the height field lays the chairs out on the old
      size, which works, and then stores 0 x 0 (Edited's `!LayoutFails(laid)` case),
      whose own layout raises. */
  lemma EditedStoresUnloadable()
    ensures var laid := TableData(0, 0, 0, 10, FourSide, 4);
      && !LayoutFails(laid)
      && laid.(width := ParseField("0"), height := ParseField("")) == TableData(0, 0, 0, 0, FourSide, 4)
      && LayoutFails(TableData(0, 0, 0, 0, FourSide, 4))
  {
    ParseFieldOfString(0);
  }

  // ---------------------------------------------------------------------------
  // The lowest free table number

  /** util.table_number_in, which this model takes to mean: some table is
      numbered `str(n)`. */
  predicate NumberInUse(numbers: seq<string>, n: nat) {
    NatToString(n) in numbers
  }

  /** n is the lowest positive number no table uses. */
  ghost predicate LowestFree(numbers: seq<string>, n: nat) {
    n >= 1 && !NumberInUse(numbers, n) && forall k :: 1 <= k < n ==> NumberInUse(numbers, k)
  }

  /** The numbers lo, ..., hi - 1. */
  function Range(lo: nat, hi: nat): (r: set<nat>)
    ensures forall k :: k in r <==> lo <= k < hi
    ensures |r| == if lo < hi then hi - lo else 0
    decreases hi
  {
    if hi <= lo then {} else Range(lo, hi - 1) + {hi - 1}
  }

  lemma SubsetCardinality<T>(a: set<T>, b: set<T>)
    requires a <= b
    ensures |a| <= |b|
  {
    assert b == a + (b - a);
  }

  /** Pigeonhole: a set of numbers all written somewhere in `numbers` has no more
      members than `numbers` has entries. */
  lemma {:induction false} CoveredBound(numbers: seq<string>, ks: set<nat>)
    requires forall k :: k in ks ==> NatToString(k) in numbers
    ensures |ks| <= |numbers|
    decreases |numbers|
  {
    if |numbers| == 0 {
      assert forall k :: k !in ks;
      assert ks == {};
    } else {
      var x := numbers[0];
      var rest := set k | k in ks && NatToString(k) != x;
      forall k | k in rest
        ensures NatToString(k) in numbers[1..]
      {
        assert NatToString(k) in numbers;
        assert numbers == [x] + numbers[1..];
      }
      CoveredBound(numbers[1..], rest);
      if p :| p in ks && NatToString(p) == x {
        forall k | k in ks
          ensures k in rest + {p}
        {
          if NatToString(k) == x {
            NatToStringInjective(k, p);
          }
        }
        SubsetCardinality(ks, rest + {p});
      } else {
        assert ks == rest;
      }
    }
  }

  /** While every number below `lowest` is in use, `lowest` cannot pass the number
      of tables plus one: this is why add_table's search ends. */
  lemma LowestBound(numbers: seq<string>, lowest: nat)
    requires lowest >= 1
    requires forall k :: 1 <= k < lowest ==> NumberInUse(numbers, k)
    ensures lowest <= |numbers| + 1
  {
    var ks := Range(1, lowest);
    forall k | k in ks
      ensures NatToString(k) in numbers
    {
      assert NumberInUse(numbers, k);
    }
    CoveredBound(numbers, ks);
  }

  /** The search at the start of add_table: count up from 1 while the number is
      in use. It ends because the numbers in use are finitely many. */
  method LowestFreeNumber(numbers: seq<string>) returns (lowest: nat)
    ensures LowestFree(numbers, lowest)
    ensures lowest <= |numbers| + 1
  {
    lowest := 1;
    while true
      invariant 1 <= lowest <= |numbers| + 1
      invariant forall k :: 1 <= k < lowest ==> NumberInUse(numbers, k)
      decreases |numbers| + 1 - lowest
    {
      if NumberInUse(numbers, lowest) {
        lowest := lowest + 1;
        LowestBound(numbers, lowest);
      } else {
        break;
      }
    }
  }

  // ---------------------------------------------------------------------------
  // The plan

  /** Some table in `ts` has the id `id`. */
  ghost predicate Listed(ts: seq<Table>, id: int)
    decreases |ts|
  {
    |ts| > 0 && (ts[|ts| - 1].record.tableId == id || Listed(ts[..|ts| - 1], id))
  }

  lemma {:induction false} ListedAt(ts: seq<Table>, id: int)
    ensures Listed(ts, id) <==> exists i :: 0 <= i < |ts| && ts[i].record.tableId == id
    decreases |ts|
  {
    if |ts| > 0 {
      var init := ts[..|ts| - 1];
      ListedAt(init, id);
      if exists i :: 0 <= i < |ts| && ts[i].record.tableId == id {
        var i :| 0 <= i < |ts| && ts[i].record.tableId == id;
        if i < |ts| - 1 {
          assert init[i] == ts[i];
        }
      }
      if Listed(init, id) {
        var i :| 0 <= i < |init| && init[i].record.tableId == id;
        assert ts[i] == init[i];
      }
    }
  }

  /** The tables have distinct records and the directory holds exactly those
      records, each under its own id. (Records and ids never change, so this
      reads nothing from the heap.) */
  ghost predicate Registered(ts: seq<Table>, registry: map<int, TableRecord>) {
    && (forall i, j :: 0 <= i < j < |ts| ==> ts[i].record != ts[j].record)
    && (forall i :: 0 <= i < |ts| ==> ts[i].record.tableId in registry && registry[ts[i].record.tableId] == ts[i].record)
    && (forall id :: id in registry ==> Listed(ts, id))
  }

  /** Putting a table with a new record under a new id keeps the directory in step. */
  lemma RegisteredAppend(ts: seq<Table>, registry: map<int, TableRecord>, t: Table)
    requires Registered(ts, registry)
    requires t.record.tableId !in registry
    ensures Registered(ts + [t], registry[t.record.tableId := t.record])
  {
    var ts', registry' := ts + [t], registry[t.record.tableId := t.record];
    assert ts'[..|ts|] == ts;
    forall i | 0 <= i < |ts|
      ensures ts'[i].record != t.record
    {
      assert ts[i].record.tableId in registry;
    }
  }

  /** Dropping the k-th table and its directory entry keeps the directory in step. */
  lemma RegisteredRemove(ts: seq<Table>, registry: map<int, TableRecord>, k: nat)
    requires Registered(ts, registry)
    requires k < |ts|
    ensures Registered(ts[..k] + ts[k + 1..], registry - {ts[k].record.tableId})
  {
    var gone := ts[k].record.tableId;
    var ts', registry' := ts[..k] + ts[k + 1..], registry - {gone};
    assert forall i :: 0 <= i < |ts'| ==> ts'[i] == if i < k then ts[i] else ts[i + 1];
    forall i | 0 <= i < |ts'|
      ensures ts'[i].record.tableId != gone
    {
      var m := if i < k then i else i + 1;
      assert registry[ts[m].record.tableId] == ts[m].record;
    }
    forall id | id in registry'
      ensures Listed(ts', id)
    {
      ListedAt(ts, id);
      var i :| 0 <= i < |ts| && ts[i].record.tableId == id;
      if i < k {
        assert ts'[i] == ts[i];
      } else {
        assert i != k;
        assert ts'[i - 1] == ts[i];
      }
      ListedAt(ts', id);
    }
  }

  /** A table as the database hands it over at start-up. */
  datatype Row = Row(tableId: int, tableNumber: string, data: TableData)

  class FloorPlan {
    const canvas: Canvas
    const details: TableDetails
    /** The tables on the canvas (self.tables). */
    var tables: seq<Table>
    /** The global table directory, keyed by table id (data.tables). */
    var registry: map<int, TableRecord>
    var selected: Table?

    /** The directory holds exactly the records of the tables on the plan, each
        under its id, and the selection is one of the tables and is what the
        details form shows. */
    ghost predicate Valid()
      reads this, details
    {
      && Registered(tables, registry)
      && (selected == null || selected in tables)
      && details.table == selected && !details.loading
    }

    /** The numbers of the tables on the plan, in order. */
    function Numbers(): (ns: seq<string>)
      reads this, set i | 0 <= i < |tables| :: tables[i].record
      ensures |ns| == |tables| && forall i :: 0 <= i < |tables| ==> ns[i] == tables[i].record.tableNumber
    {
      seq(|tables|, i requires 0 <= i < |tables| reads this, set j | 0 <= j < |tables| :: tables[j].record =>
        tables[i].record.tableNumber)
    }

    /** select_table: the callback each table fires when it is laid out or clicked. */
    method SelectTable(t: Table?)
      modifies this, details
      ensures selected == t && details.table == t && !details.loading
      ensures tables == old(tables) && registry == old(registry)
    {
      selected := t;
      details.LoadTable(t);
    }

    /** FloorPlan.__init__ with populate: one canvas table per loaded row, each
        selecting itself as it is laid out, so the last one ends up selected. */
    constructor (rows: seq<Row>)
      requires forall i :: 0 <= i < |rows| ==> WellFormed(rows[i].data) && !LayoutFails(rows[i].data)
      requires forall i, j :: 0 <= i < |rows| && 0 <= j < |rows| && i != j ==> rows[i].tableId != rows[j].tableId
      ensures Valid()
      ensures |tables| == |rows|
      ensures forall i :: 0 <= i < |rows| ==> tables[i].record.tableId == rows[i].tableId
      ensures selected == if |rows| == 0 then null else tables[|rows| - 1]
    {
      canvas := new Canvas();
      details := new TableDetails();
      tables := [];
      registry := map[];
      selected := null;
      new;
      for i := 0 to |rows|
        invariant Valid()
        invariant |tables| == i
        invariant forall m :: i <= m < |rows| ==> rows[m].tableId !in registry
        invariant forall k :: 0 <= k < i ==> tables[k].record.tableId == rows[k].tableId
        invariant selected == if i == 0 then null else tables[i - 1]
      {
        var t := PlaceTable(rows[i].tableId, rows[i].tableNumber, rows[i].data);
        tables := tables + [t];
      }
    }

    /** `tables[id] = record` followed by `Table(record, canvas, select_table)`:
        the record enters the directory, and the new table lays itself out and
        selects itself. It is not yet on the plan's list. */
    method PlaceTable(tableId: int, tableNumber: string, d: TableData) returns (t: Table)
      requires Registered(tables, registry) && tableId !in registry
      requires WellFormed(d) && !LayoutFails(d)
      modifies this, canvas, details
      ensures fresh(t) && fresh(t.record)
      ensures t.canvas == canvas && t.Valid() && t.ChairsPlaced() && !t.editing
      ensures t.record.tableId == tableId && t.record.tableNumber == tableNumber && t.record.Data() == d
      ensures tables == old(tables)
      ensures registry == old(registry)[tableId := t.record]
      ensures Registered(tables + [t], registry)
      ensures selected == t && details.table == t && !details.loading
    {
      var record := new TableRecord(tableId, tableNumber, d);
      registry := registry[tableId := record];
      t := new Table(record, canvas);
      RegisteredAppend(tables, old(registry), t);
      SelectTable(t);
    }

    /** add_table: the new table gets the lowest positive number not in use and
        the defaults' position, size, shape and capacity; it is registered under
        the row id the database assigns, selected, switched to editing and put
        on the plan. */
    method AddTable(defaults: TableData, rowId: int) returns (lowest: nat)
      requires Valid()
      requires rowId !in registry
      requires WellFormed(defaults) && !LayoutFails(defaults)
      modifies this, canvas, details
      ensures Valid()
      ensures LowestFree(old(Numbers()), lowest)
      ensures |tables| == |old(tables)| + 1 && tables[..|old(tables)|] == old(tables)
      ensures var t := tables[|old(tables)|];
        && fresh(t) && fresh(t.record)
        && t.record.tableId == rowId
        && t.record.tableNumber == NatToString(lowest)
        && t.record.Data() == defaults
        && t.ChairsPlaced() && t.editing
        && selected == t
        && registry == old(registry)[rowId := t.record]
    {
      lowest := LowestFreeNumber(Numbers());
      var t := PlaceTable(rowId, NatToString(lowest), defaults);
      t.SetEditing(true);
      tables := tables + [t];
    }

    /** delete_table: with a table selected, drop it from the directory and from
        the plan and clear the selection; with none, nothing happens. */
    method DeleteTable()
      requires Valid()
      modifies this, details
      ensures Valid()
      ensures old(selected) == null ==> tables == old(tables) && registry == old(registry) && selected == null
      ensures old(selected) != null ==>
        && registry == old(registry) - {old(selected).record.tableId}
        && old(selected) in old(tables)
        && tables == RemoveFirst(old(tables), old(selected) as Table)
        && old(selected) !in tables
        && selected == null
    {
      if selected == null {
        return;
      }
      var gone: Table := selected;
      var k :| 0 <= k < |tables| && tables[k] == gone;
      assert gone !in tables[..k] by {
        forall m | 0 <= m < k
          ensures tables[m] != gone
        {
          assert tables[m].record != tables[k].record;
        }
      }
      assert gone !in tables[k + 1..] by {
        forall m | k + 1 <= m < |tables|
          ensures tables[m] != gone
        {
          assert tables[k].record != tables[m].record;
        }
      }
      RemoveFirstShape(tables, gone, k);
      RegisteredRemove(tables, registry, k);
      registry := registry - {gone.record.tableId};
      tables := RemoveFirst(tables, gone);
      SelectTable(null);
    }
  }
}
