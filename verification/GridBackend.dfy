/**
 The certified grid backend: per-channel bounds recorded for every MAC weight, a
 weight cache keyed by object identity, and the choice between the integer
 kernel and the sequential fallback.
 */
module GridBackend {
  import opened IntArithmetic
  import opened FloatAccumulator
  import opened Quantum
  import opened GridUnits
  import opened Results
  import MatrixProduct

  const CERTIFIED_STRATEGY := "certified_fp64_grid_v2"

  datatype Record = Record(node: string, operation: string, rows: seq<Native>, units: seq<int>, channels: nat, k: nat,
                           shape: seq<nat>, attrs: map<string, int>, perChannel: seq<nat>, maximumPrefix: nat) {
    /** The certified bounds are those of the recorded units, channel by channel, and their attained maximum. */
    ghost predicate Sound(grid: Grid) {
      && |units| == channels * k && maximumPrefix <= INT32_MAX
      && AreBounds(grid.codes.maximum, units, channels, k, perChannel, maximumPrefix)
    }
  }

  ghost predicate AreBounds(maximum: nat, units: seq<int>, channels: nat, k: nat, perChannel: seq<nat>, bound: nat)
    requires |units| == channels * k
  {
    && |perChannel| == channels
    && (forall c :: 0 <= c < channels ==>
          perChannel[c] == maximum * AbsUnits(Block(units, c, channels, k)) && perChannel[c] <= bound)
    && (if channels == 0 then bound == 0 else bound in perChannel)
  }

  method ChannelMagnitude(units: seq<int>) returns (total: nat)
    ensures total == AbsUnits(units)
  {
    total := 0;
    for i := 0 to |units|
      invariant total == AbsUnits(units[..i])
    {
      assert units[..i + 1][..i] == units[..i];
      total := total + AbsInt(units[i]);
    }
    assert units[..|units|] == units;
  }

  /** The channel loop of the certificate: every channel's bound and the largest of them. */
  method ChannelBounds(maximum: nat, units: seq<int>, channels: nat, k: nat) returns (perChannel: seq<nat>, bound: nat)
    requires |units| == channels * k
    ensures AreBounds(maximum, units, channels, k, perChannel, bound)
  {
    hide AbsUnits;
    perChannel, bound := [], 0;
    for c := 0 to channels
      invariant |perChannel| == c
      invariant forall d :: 0 <= d < c ==>
        perChannel[d] == maximum * AbsUnits(Block(units, d, channels, k)) && perChannel[d] <= bound
      invariant if c == 0 then bound == 0 else bound in perChannel
    {
      var total := ChannelMagnitude(Block(units, c, channels, k));
      MulNonnegative(maximum, total);
      var limit: nat := maximum * total;
      ghost var before := perChannel;
      perChannel := perChannel + [limit];
      assert forall x :: x in perChannel <==> x in before || x == limit;
      if limit > bound {
        bound := limit;
      }
    }
  }

  /** The certificate of one MAC, refused when a prefix could leave INT32. */
  method CertifyMac(grid: Grid, table: seq<Native>, node: string, operation: string, codes: seq<nat>, channels: nat,
                    k: nat, shape: seq<nat>, attrs: map<string, int>) returns (record: Result<Record>)
    requires grid.Valid() && |codes| == channels * k && |table| == |grid.values|
    requires forall i :: 0 <= i < |codes| ==> codes[i] < |table|
    ensures record.Success? ==> record.value.Sound(grid) && record.value.channels == channels && record.value.k == k
    ensures record.Success? ==>
      && record.value.node == node && record.value.operation == operation
      && record.value.shape == shape && record.value.attrs == attrs
    ensures record.Success? ==> |record.value.rows| == |codes| && forall i :: 0 <= i < |codes| ==>
      record.value.rows[i] == table[codes[i]] && record.value.units[i] == grid.codes.units[codes[i]]
    ensures record.Success? <==>
      && channels > 0
      && (forall i :: 0 <= i < |codes| ==> grid.values[codes[i]].Some?)
      && forall c :: 0 <= c < channels ==>
           grid.codes.maximum * AbsUnits(Block(UnitCodes(grid, codes), c, channels, k)) <= INT32_MAX
  {
    hide AbsUnits;
    if exists i :: 0 <= i < |codes| && grid.values[codes[i]].None? {
      return Failure("frozen weight contains a nonfinite code");
    }
    var units := UnitCodes(grid, codes);
    var perChannel, bound := ChannelBounds(grid.codes.maximum, units, channels, k);
    if channels == 0 || bound > INT32_MAX {
      return Failure("actual-weight prefix bound exceeds certified INT32/FP64 range");
    }
    var rows := seq(|codes|, i requires 0 <= i < |codes| => table[codes[i]]);
    return Success(Record(node, operation, rows, units, channels, k, shape, attrs, perChannel, bound));
  }

  function UnitCodes(grid: Grid, codes: seq<nat>): (units: seq<int>)
    requires |grid.codes.units| == |grid.values| && forall i :: 0 <= i < |codes| ==> codes[i] < |grid.values|
    ensures |units| == |codes| && forall i :: 0 <= i < |codes| ==> units[i] == grid.codes.units[codes[i]]
  {
    seq(|codes|, i requires 0 <= i < |codes| => grid.codes.units[codes[i]])
  }

  // ----- native arrays and the weight cache -----

  /** The memory behind one or more arrays of native records. */
  class Buffer {
    var rows: seq<Native>

    constructor (rows: seq<Native>)
      ensures this.rows == rows
    {
      this.rows := rows;
    }
  }

  /**
   An array of native records: a view of a buffer that other views may share. Its
   address can be reused once it is gone.
   */
  class NativeValues {
    const id: nat
    const writable: bool
    const buffer: Buffer

    constructor (id: nat, buffer: Buffer, writable: bool)
      ensures this.id == id && this.buffer == buffer && this.writable == writable
    {
      this.id, this.buffer, this.writable := id, buffer, writable;
    }

    method Write(index: nat, row: Native)
      requires writable && index < |buffer.rows|
      modifies buffer
      ensures buffer.rows == old(buffer.rows)[index := row]
    {
      buffer.rows := buffer.rows[index := row];
    }
  }

  /** No writable view shares its memory with a read-only one. */
  ghost predicate Unaliased(views: set<NativeValues>) {
    forall v, w :: v in views && w in views && v.writable && !w.writable ==> v.buffer != w.buffer
  }

  datatype Found = Found(record: Record, units: seq<int>)

  function RecordOf(records: seq<Record>, rows: seq<Native>): Option<Record> {
    if |records| == 0 then None
    else if records[0].rows == rows then Some(records[0])
    else RecordOf(records[1..], rows)
  }

  /** The lookup on current contents: identity of the records, admission, identity of the units. */
  function Recomputed(grid: Grid, records: seq<Record>, rows: seq<Native>): Option<Found>
    requires |grid.allowed| == 2 * grid.codes.maximum + 1
  {
    var record := RecordOf(records, rows);
    if record.None? then None
    else
      var units := UnitsOf(grid, rows);
      if units.None? || units.value != record.value.units then None
      else Some(Found(record.value, units.value))
  }

  /** What _weight returns with no cache at all. */
  function Fresh(grid: Grid, records: seq<Record>, rows: seq<Native>, attrs: map<string, int>): Option<Found>
    requires |grid.allowed| == 2 * grid.codes.maximum + 1
  {
    var found := Recomputed(grid, records, rows);
    if found.Some? then Matching(found.value, attrs) else None
  }

  /** Only a record with the same attributes answers. */
  function Matching(found: Found, attrs: map<string, int>): Option<Found> {
    if found.record.attrs == attrs then Some(found) else None
  }

  const NONFINITE := Native(0, 0, NotNumber)

  /** Rows with a nonfinite record have no units. */
  lemma NonfiniteRefused(grid: Grid, records: seq<Record>, rows: seq<Native>, index: nat)
    requires |grid.allowed| == 2 * grid.codes.maximum + 1 && index < |rows| && rows[index] == NONFINITE
    ensures Recomputed(grid, records, rows) == None
  {
    assert RowUnits(grid, rows[index]) == None;
  }

  datatype Entry = Entry(values: NativeValues, found: Found)

  datatype Call =
    | Lookup(values: NativeValues, attrs: map<string, int>)
    | Write(values: NativeValues, index: nat, row: Native)

  type Memory = map<Buffer, seq<Native>>

  /** The contents of the buffers after one call. */
  ghost function After(call: Call, before: Memory): Memory {
    if call.Write? && call.values.buffer in before && call.values.writable && call.index < |before[call.values.buffer]|
    then before[call.values.buffer := before[call.values.buffer][call.index := call.row]]
    else before
  }

  ghost function Contents(calls: seq<Call>, n: nat, start: Memory): Memory
    requires n <= |calls|
  {
    if n == 0 then start else After(calls[n - 1], Contents(calls, n - 1, start))
  }

  lemma ContentsStep(calls: seq<Call>, n: nat, start: Memory)
    requires n < |calls|
    ensures Contents(calls, 0, start) == start
    ensures Contents(calls, n + 1, start) == After(calls[n], Contents(calls, n, start))
  {
  }

  lemma {:induction false} SameBuffers(calls: seq<Call>, n: nat, start: Memory, buffer: Buffer)
    requires n <= |calls|
    ensures buffer in Contents(calls, n, start) <==> buffer in start
  {
    if n > 0 {
      SameBuffers(calls, n - 1, start, buffer);
    }
  }

  /** The calls use these views of these buffers. */
  ghost predicate Within(calls: seq<Call>, views: set<NativeValues>, start: Memory) {
    forall n :: 0 <= n < |calls| ==> calls[n].values in views && calls[n].values.buffer in start
  }

  lemma UsesBuffer(calls: seq<Call>, n: nat, start: Memory, views: set<NativeValues>)
    requires n < |calls| && Within(calls, views, start)
    ensures calls[n].values.buffer in start.Keys
  {
  }

  /** A lookup is answered by recomputing from the given contents. */
  ghost predicate Answered(grid: Grid, records: seq<Record>, call: Call, answer: Option<Found>,
                           contents: Memory)
    requires |grid.allowed| == 2 * grid.codes.maximum + 1
  {
    call.Lookup? ==>
      call.values.buffer in contents && answer == Fresh(grid, records, contents[call.values.buffer], call.attrs)
  }

  /** Every answer so far was that of the contents at its call. */
  ghost predicate History(grid: Grid, records: seq<Record>, calls: seq<Call>, answers: seq<Option<Found>>,
                          start: Memory)
    requires |grid.allowed| == 2 * grid.codes.maximum + 1 && |answers| <= |calls|
  {
    forall n :: 0 <= n < |answers| ==> Answered(grid, records, calls[n], answers[n], Contents(calls, n, start))
  }

  lemma HistoryStep(grid: Grid, records: seq<Record>, calls: seq<Call>, answers: seq<Option<Found>>,
                    answer: Option<Found>, start: Memory)
    requires |grid.allowed| == 2 * grid.codes.maximum + 1 && |answers| < |calls|
    requires History(grid, records, calls, answers, start)
    requires Answered(grid, records, calls[|answers|], answer, Contents(calls, |answers|, start))
    ensures History(grid, records, calls, answers + [answer], start)
  {
    hide Answered, Contents;
  }

  /** The live buffers hold the recorded contents. */
  ghost predicate AllCurrent(contents: Memory)
    reads contents.Keys
  {
    forall buffer :: buffer in contents ==> buffer.rows == contents[buffer]
  }

  ghost predicate IsLinear(found: Option<Found>, channels: int, k: int) {
    found.Some? && found.value.record.operation == "linear"
    && found.value.record.channels == channels && found.value.record.k == k
  }

  /** A certified linear weight and admitted activations in the certified accumulator. */
  ghost predicate UsesGrid(grid: Grid, records: seq<Record>, xs: seq<Native>, ws: seq<Native>, channels: int, k: int,
                     accumulator: FloatFormat)
    requires |grid.allowed| == 2 * grid.codes.maximum + 1
  {
    accumulator == BINARY64 && IsLinear(Fresh(grid, records, ws, map[]), channels, k) && UnitsOf(grid, xs).Some?
  }

  ghost predicate IsGemm(xs: seq<Native>, ws: seq<Native>, batch: int, channels: int, k: int) {
    && 0 < batch < 0x8000_0000 && 0 < channels < 0x8000_0000 && 0 < k < 0x8000_0000
    && |xs| == batch * k && |ws| == channels * k
  }

  ghost predicate AllPrepared(rows: seq<Native>) {
    forall i :: 0 <= i < |rows| ==> rows[i].Prepared()
  }

  /** The reference: one sequential reduction for every output of a GEMM. */
  function Sequential(f: FloatFormat, xs: seq<Native>, ws: seq<Native>, batch: nat, channels: Positive, k: nat)
    : seq<Stored>
    requires |xs| == batch * k && |ws| == channels * k
  {
    MatrixProduct.Product((x, w) requires |x| == |w| => SequentialState(f, x, w), xs, ws, batch, channels, k)
  }

  /** The integer kernel of a GEMM. */
  function GridGemm(xs: seq<int>, ws: seq<int>, batch: nat, channels: Positive, k: nat, shift: nat): seq<Stored>
    requires |xs| == batch * k && |ws| == channels * k
  {
    MatrixProduct.Product((x, w) requires |x| == |w| => GridState(x, w, shift), xs, ws, batch, channels, k)
  }

  lemma UnitsLength(grid: Grid, rows: seq<Native>, units: seq<int>)
    requires |grid.allowed| == 2 * grid.codes.maximum + 1 && UnitsOf(grid, rows) == Some(units)
    ensures |units| == |rows|
  {
  }

  lemma {:induction false} RecordListed(records: seq<Record>, rows: seq<Native>)
    requires RecordOf(records, rows).Some?
    ensures RecordOf(records, rows).value in records && RecordOf(records, rows).value.rows == rows
  {
    if records[0].rows != rows {
      RecordListed(records[1..], rows);
    }
  }

  lemma FreshSound(grid: Grid, records: seq<Record>, rows: seq<Native>, attrs: map<string, int>, found: Found)
    requires grid.Valid() && forall r :: r in records ==> r.Sound(grid)
    requires Fresh(grid, records, rows, attrs) == Some(found)
    ensures found.record.Sound(grid) && found.units == found.record.units && UnitsOf(grid, rows) == Some(found.units)
  {
    hide UnitsOf, Record.Sound;
    RecordListed(records, rows);
  }

  /** The lookup answers when the only record of these rows has their units and the attributes. */
  lemma FreshComplete(grid: Grid, records: seq<Record>, rows: seq<Native>, attrs: map<string, int>, record: Record)
    requires |grid.allowed| == 2 * grid.codes.maximum + 1
    requires record in records && forall r :: r in records && r.rows == rows ==> r == record
    requires record.rows == rows && record.attrs == attrs && UnitsOf(grid, rows) == Some(record.units)
    ensures Fresh(grid, records, rows, attrs) == Some(Found(record, record.units))
  {
    hide UnitsOf;
    RecordFound(records, rows, record);
    RecordListed(records, rows);
  }

  lemma {:induction false} RecordFound(records: seq<Record>, rows: seq<Native>, record: Record)
    requires record in records && record.rows == rows
    ensures RecordOf(records, rows).Some?
  {
    if records[0].rows != rows {
      assert record in records[1..];
      RecordFound(records[1..], rows, record);
    }
  }

  /** Admitted rows are the values of their units, block by block. */
  lemma AdmittedBlock(grid: Grid, rows: seq<Native>, units: seq<int>, i: nat, n: nat, k: nat)
    requires grid.Valid() && AllPrepared(rows) && UnitsOf(grid, rows) == Some(units)
    requires i < n && |rows| == n * k && |units| == n * k
    ensures InUnits(Block(rows, i, n, k), Block(units, i, n, k), grid.codes.shift)
    ensures forall j :: 0 <= j < k ==> AbsInt(Block(units, i, n, k)[j]) <= grid.codes.maximum
  {
    hide Grid.Valid, RowUnits, Native.Prepared, Native.IsFinite, Native.Value, GridValue;
    BlockRange(i, n, k);
    assert |grid.allowed| == 2 * grid.codes.maximum + 1 by { GridAllowed(grid); }
    forall j | 0 <= j < k
      ensures var (row, u) := (Block(rows, i, n, k)[j], Block(units, i, n, k)[j]);
        && row.Prepared() && row.IsFinite()
        && row.Value() == GridValue(u, grid.codes.shift) && AbsInt(u) <= grid.codes.maximum
    {
      assert Block(rows, i, n, k)[j] == rows[i * k + j] && Block(units, i, n, k)[j] == units[i * k + j];
      assert RowUnits(grid, rows[i * k + j]) == Some(units[i * k + j]);
      AdmittedValue(grid, rows[i * k + j]);
    }
  }

  lemma GridAllowed(grid: Grid)
    requires grid.Valid()
    ensures |grid.allowed| == 2 * grid.codes.maximum + 1 && grid.codes.shift <= 30
  {
  }

  /** The certified kernel and the sequential reduction agree at every output. */
  lemma GemmExact(grid: Grid, xs: seq<Native>, ws: seq<Native>, xu: seq<int>, found: Found, batch: nat,
                  channels: Positive, k: nat)
    requires grid.Valid() && AllPrepared(xs) && AllPrepared(ws)
    requires |xs| == batch * k && |ws| == channels * k && |xu| == batch * k && |found.units| == channels * k
    requires UnitsOf(grid, xs) == Some(xu) && UnitsOf(grid, ws) == Some(found.units)
    requires found.record.Sound(grid) && found.units == found.record.units
    requires found.record.channels == channels && found.record.k == k
    ensures GridGemm(xu, found.units, batch, channels, k, grid.codes.shift)
         == Sequential(BINARY64, xs, ws, batch, channels, k)
  {
    hide Grid.Valid, UnitsOf, SequentialState, GridState, InUnits, AllPrepared;
    GridAllowed(grid);
    var wu := found.units;
    var left := GridGemm(xu, wu, batch, channels, k, grid.codes.shift);
    var right := Sequential(BINARY64, xs, ws, batch, channels, k);
    hide GridGemm, Sequential;
    forall o | 0 <= o < |left|
      ensures left[o] == right[o]
    {
      var n, c := o / channels, o % channels;
      AdmittedBlock(grid, xs, xu, n, batch, k);
      AdmittedBlock(grid, ws, wu, c, channels, k);
      GridExact(Block(xs, n, batch, k), Block(ws, c, channels, k), Block(xu, n, batch, k), Block(wu, c, channels, k),
                grid.codes.shift, grid.codes.maximum);
    }
  }

  /** The operands of the certified branch, and its agreement with the sequential reduction. */
  lemma AdmittedGemm(grid: Grid, records: seq<Record>, xs: seq<Native>, ws: seq<Native>, xu: seq<int>, found: Found,
                     batch: nat, channels: Positive, k: nat)
    requires grid.Valid() && forall r :: r in records ==> r.Sound(grid)
    requires |xs| == batch * k && |ws| == channels * k
    requires UnitsOf(grid, xs) == Some(xu) && Fresh(grid, records, ws, map[]) == Some(found)
    requires found.record.channels == channels && found.record.k == k
    ensures |xu| == batch * k && |found.units| == channels * k
    ensures AllPrepared(xs) && AllPrepared(ws) ==>
      GridGemm(xu, found.units, batch, channels, k, grid.codes.shift)
      == Sequential(BINARY64, xs, ws, batch, channels, k)
  {
    hide Grid.Valid, Record.Sound, Fresh, AllPrepared, GridGemm, Sequential;
    GridAllowed(grid);
    UnitsLength(grid, xs, xu);
    FreshSound(grid, records, ws, map[], found);
    UnitsLength(grid, ws, found.units);
    hide UnitsOf;
    if AllPrepared(xs) && AllPrepared(ws) {
      GemmExact(grid, xs, ws, xu, found, batch, channels, k);
    }
  }

  class CertifiedBackend {
    const grid: Grid
    const records: seq<Record>
    var cache: map<nat, Entry>
    var lastStrategy: string

    /** Only read-only views are cached, each under its own address. */
    ghost predicate Formed()
      reads this
    {
      && grid.Valid()
      && (forall r :: r in records ==> r.Sound(grid))
      && forall id :: id in cache ==> !cache[id].values.writable && cache[id].values.id == id
    }

    /** Every entry is what a lookup would recompute after this row was written to the buffer. */
    ghost predicate CurrentAfter(buffer: Buffer, index: nat, row: Native)
      requires |grid.allowed| == 2 * grid.codes.maximum + 1 && index < |buffer.rows|
      reads this, buffer, set id | id in cache :: cache[id].values.buffer
    {
      forall id :: id in cache ==>
        var rows := cache[id].values.buffer.rows;
        Recomputed(grid, records, if cache[id].values.buffer == buffer then rows[index := row] else rows)
        == Some(cache[id].found)
    }

    ghost predicate Valid()
      reads this, set id | id in cache :: cache[id].values.buffer
    {
      && Formed()
      && forall id :: id in cache ==> Recomputed(grid, records, cache[id].values.buffer.rows) == Some(cache[id].found)
    }

    ghost predicate Caches(buffer: Buffer)
      reads this
    {
      exists id :: id in cache && cache[id].values.buffer == buffer
    }

    predicate Holds(values: NativeValues)
      reads this
    {
      values.id in cache && cache[values.id].values == values
    }

    constructor (grid: Grid, records: seq<Record>)
      requires grid.Valid() && forall r :: r in records ==> r.Sound(grid)
      ensures Valid() && this.grid == grid && this.records == records && cache == map[]
    {
      this.grid, this.records, cache, lastStrategy := grid, records, map[], "";
    }

    /**
     _weight: an entry answers from the moment it was made, any other array from its
     current contents; while the cache is valid the two are the same.
     */
    method Weight(values: NativeValues, attrs: map<string, int>) returns (found: Option<Found>)
      requires Formed()
      modifies this`cache
      ensures Formed() && (old(Valid()) ==> Valid() && found == Fresh(grid, records, values.buffer.rows, attrs))
      ensures found == if old(Holds(values)) then Matching(old(cache[values.id].found), attrs)
                       else Fresh(grid, records, values.buffer.rows, attrs)
      ensures old(Holds(values)) ==> cache == old(cache)
      ensures !old(Holds(values)) && found.Some? && !values.writable ==>
        Holds(values) && cache[values.id].found == found.value
      ensures forall id :: id in cache ==>
        cache[id].values == values || (id in old(cache) && cache[id] == old(cache[id]))
      ensures lastStrategy == old(lastStrategy)
    {
      assert |grid.allowed| == 2 * grid.codes.maximum + 1;
      hide Grid.Valid, Record.Sound, Recomputed;
      if values.id in cache && cache[values.id].values == values {
        found := Some(cache[values.id].found);
      } else {
        found := Recomputed(grid, records, values.buffer.rows);
        if found.None? {
          return None;
        }
        if !values.writable {
          cache := cache[values.id := Entry(values, found.value)];
        }
      }
      if found.value.record.attrs != attrs {
        found := None;
      }
    }

    /**
     Exactly when can writes through a view make the cache stale: every write keeps
     every entry current if and only if the cache holds no view of the same memory,
     or that memory has no rows.
     */
    lemma WritesKeepCurrent(values: NativeValues)
      requires Valid() && values.writable
      ensures |grid.allowed| == 2 * grid.codes.maximum + 1
      ensures (forall index: nat, row :: index < |values.buffer.rows| ==>
                 CurrentAfter(values.buffer, index, row))
         <==> !Caches(values.buffer) || values.buffer.rows == []
    {
      assert |grid.allowed| == 2 * grid.codes.maximum + 1;
      if Caches(values.buffer) && values.buffer.rows != [] {
        var rows := values.buffer.rows[0 := NONFINITE];
        NonfiniteRefused(grid, records, rows, 0);
        assert !CurrentAfter(values.buffer, 0, NONFINITE);
      }
    }

    /** An assignment through a view, refused when it is read-only; the cache stays valid when it holds no alias. */
    method Assign(values: NativeValues, index: nat, row: Native)
      requires Valid() && (values.writable ==> !Caches(values.buffer))
      modifies values.buffer
      ensures Valid()
      ensures values.buffer.rows == if values.writable && index < |old(values.buffer.rows)|
                                    then old(values.buffer.rows)[index := row] else old(values.buffer.rows)
    {
      hide Grid.Valid, Record.Sound, Recomputed;
      if values.writable && index < |values.buffer.rows| {
        values.Write(index, row);
      }
    }

    /** A write through a writable view of a cached buffer: the second lookup still answers from before it. */
    method AliasedWrite(weight: NativeValues, view: NativeValues, attrs: map<string, int>, index: nat)
      returns (first: Option<Found>, second: Option<Found>)
      requires Valid() && !weight.writable && view.writable && view.buffer == weight.buffer
      requires index < |weight.buffer.rows| && Fresh(grid, records, weight.buffer.rows, attrs).Some?
      modifies this`cache, view.buffer
      ensures second == first == old(Fresh(grid, records, weight.buffer.rows, attrs)) && first.Some?
      ensures Formed() && Fresh(grid, records, weight.buffer.rows, attrs) == None
    {
      first := Weight(weight, attrs);
      assert Holds(weight) && Matching(cache[weight.id].found, attrs) == first;
      view.Write(index, NONFINITE);
      NonfiniteRefused(grid, records, weight.buffer.rows, index);
      second := Weight(weight, attrs);
    }

    /** Call n on the live buffers, against the same call on the recorded contents. */
    method Perform(call: Call, ghost before: Memory, ghost views: set<NativeValues>) returns (answer: Option<Found>)
      requires Valid() && AllCurrent(before) && call.values.buffer in before
      requires Unaliased(views) && CachedWithin(views) && call.values in views
      modifies this`cache, call.values.buffer
      ensures Valid() && CachedWithin(views)
      ensures Answered(grid, records, call, answer, before)
      ensures AllCurrent(After(call, before))
    {
      hide Recomputed, Fresh;
      match call {
        case Lookup(values, attrs) =>
          answer := Weight(values, attrs);
        case Write(values, index, row) =>
          Assign(values, index, row);
          answer := None;
      }
    }

    /** Every cached array is one of these. */
    ghost predicate CachedWithin(views: set<NativeValues>)
      reads this
    {
      forall id :: id in cache ==> cache[id].values in views
    }

    lemma Begin(calls: seq<Call>, start: Memory)
      requires Valid()
      ensures |grid.allowed| == 2 * grid.codes.maximum + 1
      ensures Contents(calls, 0, start) == start && History(grid, records, calls, [], start)
    {
    }

    /** Call n of a history, from the contents before it to the contents after it. */
    method Advance(calls: seq<Call>, n: nat, ghost start: Memory, ghost views: set<NativeValues>)
      returns (answer: Option<Found>)
      requires n < |calls| && Valid() && AllCurrent(Contents(calls, n, start))
      requires Unaliased(views) && CachedWithin(views) && Within(calls, views, start)
      modifies this`cache, calls[n].values.buffer
      ensures Valid() && CachedWithin(views)
      ensures Answered(grid, records, calls[n], answer, Contents(calls, n, start))
      ensures AllCurrent(Contents(calls, n + 1, start))
    {
      hide Formed, Grid.Valid, Contents, AllCurrent, CachedWithin, Unaliased, After, Fresh, Recomputed, Answered;
      SameBuffers(calls, n, start, calls[n].values.buffer);
      ContentsStep(calls, n, start);
      answer := Perform(calls[n], Contents(calls, n, start), views);
    }

    /**
     Any interleaving of lookups with writes is answered from the contents of that
     moment, as long as no writable view shares memory with a read-only one.
     */
    method Interleave(calls: seq<Call>, ghost start: Memory, ghost views: set<NativeValues>)
      returns (answers: seq<Option<Found>>)
      requires Valid() && AllCurrent(start) && Unaliased(views) && CachedWithin(views)
      requires Within(calls, views, start)
      modifies this`cache, start.Keys
      ensures Valid() && CachedWithin(views)
      ensures |answers| == |calls| && History(grid, records, calls, answers, start)
    {
      hide Valid, Formed, Grid.Valid, Record.Sound, Contents, AllCurrent, CachedWithin, Unaliased, After, Fresh,
           Recomputed, History, Answered, Within;
      answers := [];
      Begin(calls, start);
      for n := 0 to |calls|
        invariant Valid() && CachedWithin(views) && |answers| == n && AllCurrent(Contents(calls, n, start))
        invariant History(grid, records, calls, answers, start)
      {
        UsesBuffer(calls, n, start, views);
        var answer := Advance(calls, n, start, views);
        HistoryStep(grid, records, calls, answers, answer, start);
        answers := answers + [answer];
      }
    }

    lemma ValidMeans()
      requires Valid()
      ensures grid.Valid() && |grid.allowed| == 2 * grid.codes.maximum + 1 && Formed()
      ensures forall r :: r in records ==> r.Sound(grid)
    {
    }

    method Chose(strategy: string)
      requires Valid()
      modifies this`lastStrategy
      ensures Valid() && lastStrategy == strategy
    {
      lastStrategy := strategy;
    }

    /**
     flex_gemm: whichever kernel is chosen, every output has the state of the
     sequential reduction. The certified kernel runs exactly for a certified
     linear weight and admitted activations.
     */
    method FlexGemm(inputs: NativeValues, weights: NativeValues, batch: int, channels: int, k: int,
                    accumulator: FloatFormat, fallbackStrategy: string) returns (states: Result<seq<Stored>>)
      requires Valid()
      modifies this`cache, this`lastStrategy
      ensures Valid()
      ensures states.Success? <==> IsGemm(inputs.buffer.rows, weights.buffer.rows, batch, channels, k)
      ensures states.Success? ==>
        var xs, ws := inputs.buffer.rows, weights.buffer.rows;
        var grids := UsesGrid(grid, records, xs, ws, channels, k, accumulator);
        && lastStrategy == (if grids then CERTIFIED_STRATEGY else fallbackStrategy)
        && (!grids || (AllPrepared(xs) && AllPrepared(ws)) ==>
             states.value == Sequential(accumulator, xs, ws, batch, channels, k))
    {
      ValidMeans();
      hide Sequential, SequentialState, GridState, Fresh, UnitsOf, RowUnits, AllPrepared, GridGemm, Record.Sound,
           Grid.Valid, Formed, Valid;
      var xs, ws := inputs.buffer.rows, weights.buffer.rows;
      if !(0 < batch < 0x8000_0000 && 0 < channels < 0x8000_0000 && 0 < k < 0x8000_0000)
         || |xs| != batch * k || |ws| != channels * k {
        return Failure("version-2 GEMM payload or dimensions are invalid");
      }
      if accumulator == BINARY64 {
        var found := Weight(weights, map[]);
        if found.Some? && found.value.record.operation == "linear"
           && found.value.record.channels == channels && found.value.record.k == k {
          var x := UnitsOf(grid, xs);
          if x.Some? {
            Chose(CERTIFIED_STRATEGY);
            AdmittedGemm(grid, records, xs, ws, x.value, found.value, batch, channels, k);
            return Success(GridGemm(x.value, found.value.units, batch, channels, k, grid.codes.shift));
          }
        }
      }
      Chose(fallbackStrategy);
      return Success(Sequential(accumulator, xs, ws, batch, channels, k));
    }
  }
}
