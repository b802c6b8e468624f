/**
  The cell and frequency tables (cell_config.c): two fixed tables searched by loops, kept under one
  lock that is given up in the middle of a frequency configuration.
 */
module CellConfig {
  import opened Bytes
  import opened Counting
  import opened Options
  import TxGate

  const MAX_CELLS := 16
  const MAX_FREQS_PER_CELL := 16
  const MODE_BUSINESS: u32 := 0
  const MODE_SPECTRUM: u32 := 1
  const CELL_ESTABLISH: byte := 0
  const CELL_RECONFIG: byte := 1
  const CELL_DELETE: byte := 2
  const FREQ_ESTABLISH: byte := 0
  const FREQ_DELETE: byte := 1

  // ---------------------------------------------------------------- tables

  /** cell_info_t */
  datatype Cell = Cell(active: bool, id: u32, power: u16, ctype: byte, freqCount: byte)

  /** The parameters of fpga_send_freq_band. */
  datatype Triple = Triple(dl: u32, ul: u32, bandwidth: u32)

  /** freq_info_t */
  datatype Freq = Freq(active: bool, sent: bool, cell: u32, beam: byte, triple: Triple, ulDl: u32, special: byte)

  type Row = seq<Freq>

  predicate InUse(f: Freq) {
    f.active
  }

  datatype Table = Table(cells: seq<Cell>, rows: seq<Row>)

  /** Slot of the first active cell with this id; the table's length when there is none. */
  function CellSlot(cells: seq<Cell>, id: u32): (r: nat)
    ensures r <= |cells| && (r < |cells| ==> cells[r].active && cells[r].id == id)
    ensures forall k :: 0 <= k < r ==> !(cells[k].active && cells[k].id == id)
  {
    FirstWith(cells, (c: Cell) => c.active && c.id == id, 0)
  }

  function BeamSlot(row: Row, beam: byte): (r: nat)
    ensures r <= |row| && (r < |row| ==> row[r].active && row[r].beam == beam)
    ensures forall k :: 0 <= k < r ==> !(row[k].active && row[k].beam == beam)
  {
    FirstWith(row, (f: Freq) => f.active && f.beam == beam, 0)
  }

  // The tables as the base station sees them: cells by id, frequencies by cell id and beam.

  function CellOf(t: Table, id: u32): Option<Cell> {
    var i := CellSlot(t.cells, id);
    if i < |t.cells| then Some(t.cells[i]) else None
  }

  function BeamOf(row: Row, beam: byte): Option<Freq> {
    var j := BeamSlot(row, beam);
    if j < |row| then Some(row[j]) else None
  }

  function Beam(t: Table, id: u32, beam: byte): Option<Freq>
    requires |t.rows| == |t.cells|
  {
    var i := CellSlot(t.cells, id);
    if i < |t.cells| then BeamOf(t.rows[i], beam) else None
  }

  predicate DistinctCells(cells: seq<Cell>) {
    forall i, k :: 0 <= i < k < |cells| && cells[i].active && cells[k].active ==> cells[i].id != cells[k].id
  }

  predicate DistinctBeams(row: Row) {
    forall j, k :: 0 <= j < k < |row| && row[j].active && row[k].active ==> row[j].beam != row[k].beam
  }

  /** What holds between a cell record and its row of frequency slots. */
  predicate RowInv(cell: Cell, row: Row) {
    && |row| == MAX_FREQS_PER_CELL && DistinctBeams(row)
    && cell.freqCount as nat == CountTo(row, InUse, |row|)
    && (forall j :: 0 <= j < |row| ==>
          (row[j].sent ==> row[j].active) && (row[j].active ==> cell.active && row[j].cell == cell.id))
  }

  predicate TableInv(t: Table) {
    && |t.cells| == |t.rows| == MAX_CELLS && DistinctCells(t.cells)
    && forall i :: 0 <= i < MAX_CELLS ==> RowInv(t.cells[i], t.rows[i])
  }

  predicate SentAt(t: Table, id: u32, beam: byte)
    requires |t.rows| == |t.cells|
  {
    var f := Beam(t, id, beam);
    f.Some? && f.value.sent
  }

  ghost predicate AnySent(t: Table)
    requires |t.rows| == |t.cells|
  {
    exists id, beam :: SentAt(t, id, beam)
  }

  lemma CellSlotIs(cells: seq<Cell>, id: u32, i: nat)
    requires i <= |cells| && (i < |cells| ==> cells[i].active && cells[i].id == id)
    requires forall k :: 0 <= k < i ==> !(cells[k].active && cells[k].id == id)
    ensures CellSlot(cells, id) == i
  {
  }

  lemma BeamSlotIs(row: Row, beam: byte, j: nat)
    requires j <= |row| && (j < |row| ==> row[j].active && row[j].beam == beam)
    requires forall k :: 0 <= k < j ==> !(row[k].active && row[k].beam == beam)
    ensures BeamSlot(row, beam) == j
  {
  }

  /** Storing into the slot of the beam, or into a free slot when the beam is new. */
  lemma RowPut(row: Row, j: nat, f: Freq)
    requires DistinctBeams(row) && j < |row| && f.active
    requires forall k :: 0 <= k < |row| && k != j && row[k].active ==> row[k].beam != f.beam
    requires row[j].active ==> row[j].beam == f.beam
    ensures DistinctBeams(row[j := f])
    ensures forall b :: BeamOf(row[j := f], b) == if b == f.beam then Some(f) else BeamOf(row, b)
    ensures CountTo(row[j := f], InUse, |row|) == CountTo(row, InUse, |row|) + if row[j].active then 0 else 1
  {
    CountUpdate(row, InUse, j, f, |row|);
    forall b ensures BeamOf(row[j := f], b) == if b == f.beam then Some(f) else BeamOf(row, b) {
      BeamSlotIs(row[j := f], b, if b == f.beam then j else BeamSlot(row, b));
    }
  }

  lemma RowDrop(row: Row, j: nat, f: Freq)
    requires DistinctBeams(row) && j < |row| && row[j].active && !f.active
    ensures DistinctBeams(row[j := f])
    ensures forall b :: BeamOf(row[j := f], b) == if b == row[j].beam then None else BeamOf(row, b)
    ensures CountTo(row[j := f], InUse, |row|) == CountTo(row, InUse, |row|) - 1
  {
    CountUpdate(row, InUse, j, f, |row|);
    forall b ensures BeamOf(row[j := f], b) == if b == row[j].beam then None else BeamOf(row, b) {
      BeamSlotIs(row[j := f], b, if b == row[j].beam then |row| else BeamSlot(row, b));
    }
  }

  /** Every table operation rewrites one cell record and its row. */
  function Set(t: Table, i: nat, cell: Cell, row: Row): Table
    requires i < |t.cells| && i < |t.rows|
  {
    Table(t.cells[i := cell], t.rows[i := row])
  }

  predicate FitsSlot(t: Table, i: nat, cell: Cell) {
    i < |t.cells|
    && (cell.active ==> forall k :: 0 <= k < |t.cells| && k != i && t.cells[k].active ==> t.cells[k].id != cell.id)
  }

  lemma SetInv(t: Table, i: nat, cell: Cell, row: Row)
    requires TableInv(t) && RowInv(cell, row) && FitsSlot(t, i, cell)
    ensures TableInv(Set(t, i, cell, row))
  {
    hide RowInv;
  }

  /** ... and changes what is known about that cell only. */
  lemma SetView(t: Table, i: nat, cell: Cell, row: Row, id: u32)
    requires TableInv(t) && FitsSlot(t, i, cell) && (t.cells[i].active && cell.active ==> t.cells[i].id == cell.id)
    ensures var u := Set(t, i, cell, row);
            var mine := (cell.active && id == cell.id) || (t.cells[i].active && id == t.cells[i].id);
            && CellOf(u, id) == (if mine then (if cell.active then Some(cell) else None) else CellOf(t, id))
            && forall b :: Beam(u, id, b) ==
                             if mine then (if cell.active then BeamOf(row, b) else None) else Beam(t, id, b)
  {
    hide RowInv;
    var u := Set(t, i, cell, row);
    if (cell.active && id == cell.id) || (t.cells[i].active && id == t.cells[i].id) {
      CellSlotIs(u.cells, id, if cell.active then i else |u.cells|);
    } else {
      CellSlotIs(u.cells, id, CellSlot(t.cells, id));
    }
  }

  /** A slot that holds an active record is the one its keys lead to. */
  lemma SlotIsKey(t: Table, i: nat, j: nat)
    requires TableInv(t) && i < MAX_CELLS && j < MAX_FREQS_PER_CELL && t.rows[i][j].active
    ensures t.cells[i].active && Beam(t, t.cells[i].id, t.rows[i][j].beam) == Some(t.rows[i][j])
  {
    assert RowInv(t.cells[i], t.rows[i]);
    CellSlotIs(t.cells, t.cells[i].id, i);
    BeamSlotIs(t.rows[i], t.rows[i][j].beam, j);
  }

  /** A cell that is not there has no frequencies, whatever its slot once held. */
  lemma NoCellNoBeams(t: Table, id: u32, beam: byte)
    requires TableInv(t)
    ensures CellOf(t, id) == None ==> Beam(t, id, beam) == None
    ensures Beam(t, id, beam).Some? ==>
              var f := Beam(t, id, beam).value; f.active && f.beam == beam && f.cell == id
  {
    var i := CellSlot(t.cells, id);
    if i < |t.cells| {
      assert RowInv(t.cells[i], t.rows[i]);
    }
  }

  // ---------------------------------------------------------------- requests

  datatype CellCfg = CellCfg(flag: byte, id: u32, power: u16, ctype: byte)

  datatype FreqCfg = FreqCfg(flag: byte, cell: u32, beam: byte, triple: Triple, ulDl: u32, special: byte)

  /** store_freq_info */
  function Stored(cfg: FreqCfg, sent: bool): Freq {
    Freq(true, sent, cfg.cell, cfg.beam, cfg.triple, cfg.ulDl, cfg.special)
  }

  ghost predicate OthersKept(t: Table, u: Table, id: u32)
    requires |t.rows| == |t.cells| && |u.rows| == |u.cells|
  {
    forall c {:trigger CellOf(u, c)} {:trigger CellOf(t, c)} :: c != id ==>
      CellOf(u, c) == CellOf(t, c) && forall b :: Beam(u, c, b) == Beam(t, c, b)
  }

  ghost predicate NoBeams(u: Table, id: u32)
    requires |u.rows| == |u.cells|
  {
    forall b :: Beam(u, id, b) == None
  }

  ghost predicate SameBeams(t: Table, u: Table, id: u32)
    requires |t.rows| == |t.cells| && |u.rows| == |u.cells|
  {
    forall b :: Beam(u, id, b) == Beam(t, id, b)
  }

  /** What one cell request does to the tables, as the base station sees them, and how it is answered. */
  ghost predicate CellChange(t: Table, u: Table, cfg: CellCfg, ok: bool)
    requires |t.rows| == |t.cells| && |u.rows| == |u.cells|
  {
    var was := CellOf(t, cfg.id);
    if cfg.flag == CELL_ESTABLISH && was.None? && (exists i :: 0 <= i < |t.cells| && !t.cells[i].active) then
      // a new cell starts without frequencies, whatever its slot held before
      ok && OthersKept(t, u, cfg.id) && NoBeams(u, cfg.id)
      && CellOf(u, cfg.id) == Some(Cell(true, cfg.id, cfg.power, cfg.ctype, 0))
    else if cfg.flag == CELL_ESTABLISH then
      u == t && ok == (was.Some? && was.value.power == cfg.power && was.value.ctype == cfg.ctype)
    else if cfg.flag == CELL_RECONFIG && was.Some? then
      // only the power is taken over
      ok && OthersKept(t, u, cfg.id) && SameBeams(t, u, cfg.id)
        && CellOf(u, cfg.id) == Some(was.value.(power := cfg.power))
    else if cfg.flag == CELL_DELETE then
      ok && OthersKept(t, u, cfg.id) && NoBeams(u, cfg.id) && CellOf(u, cfg.id) == None && (was.None? ==> u == t)
    else
      !ok && u == t
  }

  // ---------------------------------------------------------------- what the antenna has been told

  /** A band command that went out, and a mode wait that returned SUCCESS, on behalf of one caller. */
  datatype Act = BandSent(caller: nat, triple: Triple) | ModeCycled(caller: nat, triple: Triple)

  ghost predicate SentBy(log: seq<Act>, a: nat, caller: nat, triple: Triple) {
    a < |log| && log[a] == BandSent(caller, triple)
  }

  /** Some call sent these parameters and then saw its mode wait succeed. */
  ghost predicate Proven(log: seq<Act>, triple: Triple) {
    exists a: nat, caller, b: nat ::
      SentBy(log, a, caller, triple) && a < b < |log| && log[b] == ModeCycled(caller, triple)
  }

  ghost predicate RowSound(row: Row, log: seq<Act>) {
    forall j :: 0 <= j < |row| && row[j].sent ==> Proven(log, row[j].triple)
  }

  ghost predicate Sound(t: Table, log: seq<Act>) {
    forall i :: 0 <= i < |t.rows| ==> RowSound(t.rows[i], log)
  }

  ghost predicate WaitersSent(waiting: map<nat, FreqCfg>, log: seq<Act>) {
    forall c :: c in waiting ==> exists a: nat :: SentBy(log, a, c, waiting[c].triple)
  }

  lemma ProvenStays(log: seq<Act>, act: Act, triple: Triple)
    requires Proven(log, triple)
    ensures Proven(log + [act], triple)
  {
    var a: nat, caller, b: nat :| SentBy(log, a, caller, triple) && a < b < |log|
      && log[b] == ModeCycled(caller, triple);
    assert SentBy(log + [act], a, caller, triple) && (log + [act])[b] == log[b];
  }

  lemma LogGrows(t: Table, waiting: map<nat, FreqCfg>, log: seq<Act>, act: Act)
    requires Sound(t, log) && WaitersSent(waiting, log)
    ensures Sound(t, log + [act]) && WaitersSent(waiting, log + [act])
  {
    forall i, j | 0 <= i < |t.rows| && 0 <= j < |t.rows[i]| && t.rows[i][j].sent
      ensures Proven(log + [act], t.rows[i][j].triple)
    {
      assert RowSound(t.rows[i], log);
      ProvenStays(log, act, t.rows[i][j].triple);
    }
    forall c | c in waiting ensures exists a: nat :: SentBy(log + [act], a, c, waiting[c].triple) {
      var a: nat :| SentBy(log, a, c, waiting[c].triple);
      assert SentBy(log + [act], a, c, waiting[c].triple);
    }
  }

  // ---------------------------------------------------------------- waiting for the antenna

  /** Status reads: the working mode, or nothing when the read fails. */
  type Reads = nat -> Option<u32>

  datatype WaitResult = WaitSuccess | WaitTimeout | WaitError

  const MAX_POLLS := 50

  /** The k-th read shows a mode other than the one the wait began in. */
  predicate ShowsOther(poll: Reads, k: nat) {
    poll(k).Some? && poll(k) != poll(0)
  }

  /** Read `c` is the first of another mode, and no read after it within the time shows the initial mode. */
  ghost predicate LeftForGood(poll: Reads, c: nat) {
    && 1 <= c <= MAX_POLLS && ShowsOther(poll, c)
    && (forall k: nat :: 1 <= k < c ==> !ShowsOther(poll, k))
    && (forall k: nat :: c < k <= MAX_POLLS + 1 ==> poll(k) != poll(0))
  }

  /** A wait fails only when the antenna left one of the two working modes and was not seen back in time. */
  ghost function Waited(poll: Reads): WaitResult {
    if poll(0).None? then WaitError
    else if poll(0) in {Some(MODE_BUSINESS), Some(MODE_SPECTRUM)} && exists c: nat :: LeftForGood(poll, c) then
      WaitTimeout
    else WaitSuccess
  }

  /**
    wait_for_antenna_mode_cycle: read 0 gives the initial mode; 50 polls of 100 ms are shared by
    the wait for another mode and the wait for the initial one again.
   */
  method WaitForModeCycle(poll: Reads) returns (r: WaitResult)
    ensures r == Waited(poll)
  {
    if poll(0).None? {
      return WaitError;
    }
    if poll(0) != Some(MODE_BUSINESS) && poll(0) != Some(MODE_SPECTRUM) {
      return WaitSuccess;
    }
    var elapsed := 0;
    var changed := false;
    while elapsed < 5000 && !changed
      invariant 0 <= elapsed <= 5000 && elapsed % 100 == 0
      invariant forall k: nat :: 1 <= k <= elapsed / 100 ==> !ShowsOther(poll, k)
      invariant !changed
      decreases 5000 - elapsed
    {
      if poll(elapsed / 100 + 1).Some? && poll(elapsed / 100 + 1) != poll(0) {
        changed := true;
        break;
      }
      elapsed := elapsed + 100;
    }
    if !changed {
      return WaitSuccess;
    }
    var c := elapsed / 100 + 1;
    assert ShowsOther(poll, c);
    while elapsed < 5000
      invariant 0 <= elapsed <= 5000 && elapsed % 100 == 0 && c <= elapsed / 100 + 1
      invariant forall k: nat :: c < k <= elapsed / 100 + 1 ==> poll(k) != poll(0)
    {
      if poll(elapsed / 100 + 2) == poll(0) {
        return WaitSuccess;
      }
      elapsed := elapsed + 100;
    }
    assert LeftForGood(poll, c);
    return WaitTimeout;
  }

  // ---------------------------------------------------------------- the manager

  /** Between two tables one beam's record changed, to `f`; the cell's counter follows. */
  ghost predicate FreqStored(t: Table, u: Table, cfg: FreqCfg, f: Option<Freq>)
    requires |t.rows| == |t.cells| && |u.rows| == |u.cells|
  {
    && (forall c: u32, b: byte :: (c, b) != (cfg.cell, cfg.beam) ==> Beam(u, c, b) == Beam(t, c, b))
    && Beam(u, cfg.cell, cfg.beam) == f
    && (forall c :: c != cfg.cell ==> CellOf(u, c) == CellOf(t, c))
    && CellOf(t, cfg.cell).Some? && CellOf(u, cfg.cell).Some?
    && CellOf(u, cfg.cell).value == CellOf(t, cfg.cell).value.(freqCount := CellOf(u, cfg.cell).value.freqCount)
    && CellOf(u, cfg.cell).value.freqCount as int
       == CellOf(t, cfg.cell).value.freqCount as int
          + (if f.Some? then 1 else 0) - (if Beam(t, cfg.cell, cfg.beam).Some? then 1 else 0)
  }

  /** A cell with room for a beam: the beam is there already, or a slot is free. */
  predicate HasRoom(t: Table, id: u32, beam: byte)
    requires |t.rows| == |t.cells|
  {
    Beam(t, id, beam).Some? || (CellOf(t, id).Some? && CellOf(t, id).value.freqCount < MAX_FREQS_PER_CELL)
  }

  /** The cell already has these parameters on a record that was sent. */
  ghost predicate Duplicate(t: Table, id: u32, triple: Triple)
    requires |t.rows| == |t.cells|
  {
    exists b :: SentAt(t, id, b) && Beam(t, id, b).value.triple == triple
  }

  lemma StoreView(t: Table, i: nat, cell: Cell, row: Row)
    requires TableInv(t) && i < MAX_CELLS && t.cells[i].active
    requires cell == t.cells[i].(freqCount := cell.freqCount) && RowInv(cell, row)
    ensures TableInv(Set(t, i, cell, row))
    ensures forall c, b :: Beam(Set(t, i, cell, row), c, b) == if c == cell.id then BeamOf(row, b) else Beam(t, c, b)
    ensures forall c :: CellOf(Set(t, i, cell, row), c) == if c == cell.id then Some(cell) else CellOf(t, c)
    ensures CellOf(t, cell.id) == Some(t.cells[i]) && forall b :: Beam(t, cell.id, b) == BeamOf(t.rows[i], b)
  {
    hide RowInv;
    SetInv(t, i, cell, row);
    CellSlotIs(t.cells, cell.id, i);
    forall c ensures CellOf(Set(t, i, cell, row), c) == if c == cell.id then Some(cell) else CellOf(t, c) {
      SetView(t, i, cell, row, c);
    }
    forall c, b ensures Beam(Set(t, i, cell, row), c, b) == if c == cell.id then BeamOf(row, b) else Beam(t, c, b) {
      SetView(t, i, cell, row, c);
    }
  }

  lemma SetSound(t: Table, i: nat, cell: Cell, row: Row, log: seq<Act>)
    requires Sound(t, log) && i < |t.rows| && i < |t.cells| && RowSound(row, log)
    ensures Sound(Set(t, i, cell, row), log)
  {
    hide RowSound;
  }

  /** The row a beam is stored in stays an honest row, and its counter stays right. */
  lemma RowStored(cell: Cell, row: Row, j: nat, f: Freq, log: seq<Act>)
    requires RowInv(cell, row) && cell.active && RowSound(row, log)
    requires j == BeamSlot(row, f.beam) || (BeamSlot(row, f.beam) == |row| && j < |row| && !row[j].active)
    requires j < |row| && f.active && f.cell == cell.id && (f.sent ==> Proven(log, f.triple))
    ensures cell.freqCount < MAX_FREQS_PER_CELL || row[j].active
    ensures RowInv(if row[j].active then cell else cell.(freqCount := Inc(cell.freqCount)), row[j := f])
    ensures RowSound(row[j := f], log)
    ensures forall b :: BeamOf(row[j := f], b) == if b == f.beam then Some(f) else BeamOf(row, b)
  {
    CountBounds(row, InUse, |row|);
    RowPut(row, j, f);
  }

  predicate RowQuiet(row: Row) {
    forall j :: 0 <= j < |row| && row[j].active ==> !row[j].sent
  }

  lemma NoneSent(t: Table)
    requires TableInv(t)
    requires forall k :: 0 <= k < MAX_CELLS && t.cells[k].active ==> RowQuiet(t.rows[k])
    ensures !AnySent(t)
  {
    forall id, beam ensures !SentAt(t, id, beam) {
      var k := CellSlot(t.cells, id);
      if k < MAX_CELLS {
        assert RowQuiet(t.rows[k]);
      }
    }
  }

  lemma EstablishView(t: Table, i: nat, cfg: CellCfg)
    requires TableInv(t) && i < MAX_CELLS && !t.cells[i].active && CellOf(t, cfg.id).None? && cfg.flag == CELL_ESTABLISH
    ensures var u := Set(t, i, Cell(true, cfg.id, cfg.power, cfg.ctype, 0), t.rows[i]);
            TableInv(u) && CellChange(t, u, cfg, true)
  {
    var cell := Cell(true, cfg.id, cfg.power, cfg.ctype, 0);
    var u := Set(t, i, cell, t.rows[i]);
    assert RowInv(t.cells[i], t.rows[i]);
    CountBounds(t.rows[i], InUse, MAX_FREQS_PER_CELL);
    SetInv(t, i, cell, t.rows[i]);
    CellSlotIs(u.cells, cfg.id, i);
    forall c ensures c != cfg.id ==> CellOf(u, c) == CellOf(t, c) && forall b :: Beam(u, c, b) == Beam(t, c, b) {
      SetView(t, i, cell, t.rows[i], c);
    }
  }

  lemma ReconfigView(t: Table, i: nat, cfg: CellCfg)
    requires TableInv(t) && i < MAX_CELLS && i == CellSlot(t.cells, cfg.id) && cfg.flag == CELL_RECONFIG
    ensures var u := Set(t, i, t.cells[i].(power := cfg.power), t.rows[i]);
            TableInv(u) && CellChange(t, u, cfg, true)
  {
    var cell := t.cells[i].(power := cfg.power);
    var u := Set(t, i, cell, t.rows[i]);
    assert RowInv(t.cells[i], t.rows[i]);
    assert RowInv(cell, t.rows[i]);
    SetInv(t, i, cell, t.rows[i]);
    CellSlotIs(u.cells, cfg.id, i);
    forall c ensures c != cfg.id ==> CellOf(u, c) == CellOf(t, c) && forall b :: Beam(u, c, b) == Beam(t, c, b) {
      SetView(t, i, cell, t.rows[i], c);
    }
  }

  lemma DeleteView(t: Table, i: nat, row: Row, cfg: CellCfg)
    requires TableInv(t) && i < MAX_CELLS && i == CellSlot(t.cells, cfg.id) && cfg.flag == CELL_DELETE
    requires |row| == MAX_FREQS_PER_CELL && forall j :: 0 <= j < |row| ==> !row[j].active && !row[j].sent
    ensures var u := Set(t, i, t.cells[i].(freqCount := 0, active := false), row);
            TableInv(u) && CellChange(t, u, cfg, true)
  {
    var cell := t.cells[i].(freqCount := 0, active := false);
    var u := Set(t, i, cell, row);
    CountBounds(row, InUse, MAX_FREQS_PER_CELL);
    SetInv(t, i, cell, row);
    forall c ensures c != cfg.id ==> CellOf(u, c) == CellOf(t, c) && forall b :: Beam(u, c, b) == Beam(t, c, b) {
      SetView(t, i, cell, row, c);
    }
    SetView(t, i, cell, row, cfg.id);
  }

  lemma DeleteAbsent(t: Table, cfg: CellCfg)
    requires TableInv(t) && CellOf(t, cfg.id) == None && cfg.flag == CELL_DELETE
    ensures CellChange(t, t, cfg, true)
  {
  }

  /** What a call of update_tx_control puts on the line. */
  function TxUpdate(linkOk: bool, anySent: bool, txSent: bool): seq<TxGate.Command> {
    if linkOk then [TxGate.Command(anySent, txSent, true)] else []
  }

  lemma EmptyTables(t: Table, cell: Cell, row: Row)
    requires |t.cells| == |t.rows| == MAX_CELLS && |row| == MAX_FREQS_PER_CELL
    requires !cell.active && cell.freqCount == 0 && forall j :: 0 <= j < |row| ==> !row[j].active && !row[j].sent
    requires forall i :: 0 <= i < MAX_CELLS ==> t.cells[i] == cell && t.rows[i] == row
    ensures TableInv(t) && Sound(t, []) && forall id :: CellOf(t, id) == None
  {
    CountBounds(row, InUse, MAX_FREQS_PER_CELL);
    assert RowInv(cell, row) && RowSound(row, []);
  }

  lemma RoomIsFree(t: Table, i: nat, cfg: FreqCfg, j: nat)
    requires TableInv(t) && i < MAX_CELLS && i == CellSlot(t.cells, cfg.cell)
    requires BeamSlot(t.rows[i], cfg.beam) == MAX_FREQS_PER_CELL
    requires j <= MAX_FREQS_PER_CELL && |t.rows[i]| == MAX_FREQS_PER_CELL
    requires if j < MAX_FREQS_PER_CELL then !t.rows[i][j].active
               else forall k :: 0 <= k < MAX_FREQS_PER_CELL ==> t.rows[i][k].active
    ensures j < MAX_FREQS_PER_CELL <==> HasRoom(t, cfg.cell, cfg.beam)
  {
    assert RowInv(t.cells[i], t.rows[i]);
    CountBounds(t.rows[i], InUse, MAX_FREQS_PER_CELL);
  }

  /** freq_count is a uint8_t. */
  function Inc(b: byte): byte {
    (b + 1) % 0x100
  }

  function Dec(b: byte): byte {
    (b + 0xFF) % 0x100
  }

  /** The table after record `f` goes into slot (i, j), with the counter kept in step. */
  function Put(t: Table, i: nat, j: nat, f: Freq): Table
    requires i < |t.cells| && i < |t.rows| && j < |t.rows[i]|
  {
    var c := t.cells[i];
    var was := t.rows[i][j].active;
    var cell := if f.active && !was then c.(freqCount := Inc(c.freqCount))
                else if was && !f.active then c.(freqCount := Dec(c.freqCount)) else c;
    Set(t, i, cell, t.rows[i][j := f])
  }

  /** Slot (i, j) is where the request's beam is, or a free one while the beam is nowhere. */
  predicate IsSlot(t: Table, i: nat, j: nat, cfg: FreqCfg) {
    && TableInv(t) && i < MAX_CELLS && i == CellSlot(t.cells, cfg.cell) && j < |t.rows[i]|
    && (j == BeamSlot(t.rows[i], cfg.beam) || (BeamSlot(t.rows[i], cfg.beam) == |t.rows[i]| && !t.rows[i][j].active))
  }

  lemma BeamSlotIsHere(t: Table, i: nat, j: nat, cfg: FreqCfg)
    requires TableInv(t) && i < MAX_CELLS && i == CellSlot(t.cells, cfg.cell)
    requires j < |t.rows[i]| && t.rows[i][j].active && t.rows[i][j].beam == cfg.beam
    ensures IsSlot(t, i, j, cfg) && t.rows[i][j].cell == cfg.cell
  {
    assert RowInv(t.cells[i], t.rows[i]);
    BeamSlotIs(t.rows[i], cfg.beam, j);
  }

  lemma PutEffect(t: Table, i: nat, j: nat, cfg: FreqCfg, f: Freq, log: seq<Act>)
    requires IsSlot(t, i, j, cfg) && Sound(t, log)
    requires f.active && f.cell == cfg.cell && f.beam == cfg.beam && (f.sent ==> Proven(log, f.triple))
    ensures TableInv(Put(t, i, j, f)) && Sound(Put(t, i, j, f), log)
    ensures FreqStored(t, Put(t, i, j, f), cfg, Some(f))
    ensures CellSlot(Put(t, i, j, f).cells, cfg.cell) == i
  {
    hide Proven;
    var cell := Put(t, i, j, f).cells[i];
    assert RowInv(t.cells[i], t.rows[i]) && RowSound(t.rows[i], log);
    RowStored(t.cells[i], t.rows[i], j, f, log);
    StoreView(t, i, cell, t.rows[i][j := f]);
    SetSound(t, i, cell, t.rows[i][j := f], log);
    CellSlotIs(Put(t, i, j, f).cells, cfg.cell, i);
    var u := Put(t, i, j, f);
    assert Beam(t, cfg.cell, cfg.beam).Some? == t.rows[i][j].active;
    assert CellOf(u, cfg.cell) == Some(cell);
    assert Beam(u, cfg.cell, cfg.beam) == Some(f);
    assert CellOf(t, cfg.cell) == Some(t.cells[i]);
    assert cell.freqCount as int == t.cells[i].freqCount as int + 1 - (if t.rows[i][j].active then 1 else 0);
  }

  lemma DropEffect(t: Table, i: nat, j: nat, cfg: FreqCfg, log: seq<Act>)
    requires IsSlot(t, i, j, cfg) && Sound(t, log) && t.rows[i][j].active
    ensures var u := Put(t, i, j, t.rows[i][j].(active := false, sent := false));
            TableInv(u) && Sound(u, log) && FreqStored(t, u, cfg, None)
  {
    hide Proven;
    var f := t.rows[i][j].(active := false, sent := false);
    var cell := Put(t, i, j, f).cells[i];
    assert RowInv(t.cells[i], t.rows[i]) && RowSound(t.rows[i], log);
    CountBounds(t.rows[i], InUse, MAX_FREQS_PER_CELL);
    RowDrop(t.rows[i], j, f);
    StoreView(t, i, cell, t.rows[i][j := f]);
    SetSound(t, i, cell, t.rows[i][j := f], log);
  }

  predicate RightMode(mode: Option<u32>) {
    mode == Some(MODE_BUSINESS) || mode == Some(MODE_SPECTRUM)
  }

  /** What the first half of a frequency request does to the tables, and how it goes on. */
  ghost predicate FreqBegun(t: Table, u: Table, cfg: FreqCfg, rightMode: bool, bandSent: bool, ok: bool, waits: bool)
    requires |t.rows| == |t.cells| && |u.rows| == |u.cells|
  {
    if CellOf(t, cfg.cell).Some? && cfg.flag == FREQ_DELETE then
      ok && !waits && FreqStored(t, u, cfg, None)
    else if CellOf(t, cfg.cell).None? || cfg.flag != FREQ_ESTABLISH || !HasRoom(t, cfg.cell, cfg.beam) then
      !ok && !waits && u == t
    else if !rightMode then
      // kept for later, and no longer taken for sent
      !ok && !waits && FreqStored(t, u, cfg, Some(Stored(cfg, false)))
    else if Duplicate(t, cfg.cell, cfg.triple) then
      ok && !waits && FreqStored(t, u, cfg, Some(Stored(cfg, true)))
    else
      !ok && waits == bandSent && FreqStored(t, u, cfg, Some(Stored(cfg, false)))
  }

  /** The beam's record still, or again, carries the parameters of the request. */
  predicate IsThere(t: Table, cfg: FreqCfg)
    requires |t.rows| == |t.cells|
  {
    var cur := Beam(t, cfg.cell, cfg.beam);
    cur.Some? && cur.value.triple == cfg.triple
  }

  /** What the rest of a frequency request does: only a success changes its beam, to sent. */
  ghost predicate FreqFinished(t: Table, u: Table, cfg: FreqCfg, ok: bool)
    requires |t.rows| == |t.cells| && |u.rows| == |u.cells|
  {
    var cur := Beam(t, cfg.cell, cfg.beam);
    if ok then cur.Some? && FreqStored(t, u, cfg, Some(cur.value.(sent := true))) else u == t
  }

  /** The requests after whose first half update_tx_control is called. */
  ghost predicate TxLookedAt(t: Table, cfg: FreqCfg, rightMode: bool)
    requires |t.rows| == |t.cells|
  {
    && CellOf(t, cfg.cell).Some?
    && (|| (cfg.flag == FREQ_DELETE && Beam(t, cfg.cell, cfg.beam).Some?)
        || (cfg.flag == FREQ_ESTABLISH && rightMode && HasRoom(t, cfg.cell, cfg.beam)
             && Duplicate(t, cfg.cell, cfg.triple)))
  }

  lemma NewWaiter(waiting: map<nat, FreqCfg>, log: seq<Act>, caller: nat, cfg: FreqCfg)
    requires WaitersSent(waiting, log + [BandSent(caller, cfg.triple)])
    ensures WaitersSent(waiting[caller := cfg], log + [BandSent(caller, cfg.triple)])
  {
    assert SentBy(log + [BandSent(caller, cfg.triple)], |log|, caller, cfg.triple);
  }

  lemma NewProof(log: seq<Act>, caller: nat, triple: Triple, waiting: map<nat, FreqCfg>)
    requires WaitersSent(waiting, log) && caller in waiting && waiting[caller].triple == triple
    ensures Proven(log + [ModeCycled(caller, triple)], triple)
  {
    var a: nat :| SentBy(log, a, caller, triple);
    assert SentBy(log + [ModeCycled(caller, triple)], a, caller, triple);
    assert (log + [ModeCycled(caller, triple)])[|log|] == ModeCycled(caller, triple);
  }

  class CellManager {
    const cells: array<Cell>
    const freqs: array<Row>
    const gate: TxGate.Gate
    /** Callers inside the unlocked part of a frequency request, each with the request on its stack. */
    var waiting: map<nat, FreqCfg>
    ghost var log: seq<Act>

    ghost function Tables(): Table
      reads cells, freqs
    {
      Table(cells[..], freqs[..])
    }

    ghost predicate Valid()
      reads this, cells, freqs, gate
    {
      && cells.Length == MAX_CELLS
      && TableInv(Tables()) && Sound(Tables(), log) && WaitersSent(waiting, log) && gate.Valid()
    }

    /** cell_config_init: the zeroed tables. */
    constructor (gate: TxGate.Gate)
      requires gate.Valid()
      ensures Valid() && fresh(cells) && fresh(freqs) && this.gate == gate
      ensures waiting == map[] && log == [] && forall id :: CellOf(Tables(), id) == None
    {
      var noCell := Cell(false, 0, 0, 0, 0);
      var f := Freq(false, false, 0, 0, Triple(0, 0, 0), 0, 0);
      var noFreqs := [f, f, f, f, f, f, f, f, f, f, f, f, f, f, f, f];
      cells := new Cell[MAX_CELLS](_ => noCell);
      freqs := new Row[MAX_CELLS](_ => noFreqs);
      this.gate := gate;
      waiting, log := map[], [];
      new;
      EmptyTables(Tables(), noCell, noFreqs);
    }

    method FindCell(id: u32) returns (i: nat)
      ensures i == CellSlot(cells[..], id)
    {
      i := 0;
      while i < cells.Length
        invariant 0 <= i <= cells.Length
        invariant forall k :: 0 <= k < i ==> !(cells[k].active && cells[k].id == id)
      {
        if cells[i].active && cells[i].id == id {
          break;
        }
        i := i + 1;
      }
      CellSlotIs(cells[..], id, i);
    }

    method FindBeam(i: nat, beam: byte) returns (j: nat)
      requires i < freqs.Length
      ensures j == BeamSlot(freqs[i], beam)
    {
      j := 0;
      while j < |freqs[i]|
        invariant 0 <= j <= |freqs[i]|
        invariant forall k :: 0 <= k < j ==> !(freqs[i][k].active && freqs[i][k].beam == beam)
      {
        if freqs[i][j].active && freqs[i][j].beam == beam {
          break;
        }
        j := j + 1;
      }
      BeamSlotIs(freqs[i], beam, j);
    }

    /** has_any_freq: some beam of some known cell has been sent. */
    method HasAnyFreq() returns (found: bool)
      requires TableInv(Tables())
      ensures found == AnySent(Tables())
    {
      found := false;
      for i := 0 to MAX_CELLS
        invariant forall k :: 0 <= k < i && cells[k].active ==> RowQuiet(freqs[k])
      {
        if cells[i].active {
          assert RowInv(Tables().cells[i], Tables().rows[i]);
          for j := 0 to MAX_FREQS_PER_CELL
            invariant forall m :: 0 <= m < j && freqs[i][m].active ==> !freqs[i][m].sent
          {
            if freqs[i][j].active && freqs[i][j].sent {
              SlotIsKey(Tables(), i, j);
              assert SentAt(Tables(), cells[i].id, freqs[i][j].beam);
              return true;
            }
          }
        }
      }
      NoneSent(Tables());
    }

    /** update_tx_control */
    method UpdateTxControl(txSent: bool)
      requires Valid()
      modifies gate
      ensures Valid()
      ensures gate.linkOk == old(gate.linkOk)
      ensures gate.commands == old(gate.commands) + TxUpdate(gate.linkOk, AnySent(Tables()), txSent)
      ensures gate.linkOk && txSent ==> gate.txOn == AnySent(Tables())
    {
      var any := HasAnyFreq();
      gate.UpdateTxControl(any, txSent);
    }

    // ---- cells

    method FindFreeCell() returns (i: nat)
      ensures i <= cells.Length && (i < cells.Length ==> !cells[i].active)
      ensures i == cells.Length ==> forall k :: 0 <= k < cells.Length ==> cells[k].active
    {
      i := 0;
      while i < cells.Length
        invariant 0 <= i <= cells.Length
        invariant forall k :: 0 <= k < i ==> cells[k].active
      {
        if !cells[i].active {
          break;
        }
        i := i + 1;
      }
    }

    method EstablishCell(cfg: CellCfg) returns (ok: bool)
      requires Valid() && cfg.flag == CELL_ESTABLISH
      modifies cells
      ensures TableInv(Tables()) && Sound(Tables(), log)
      ensures CellChange(old(Tables()), Tables(), cfg, ok)
    {
      var i := FindCell(cfg.id);
      if i < cells.Length {
        ok := cells[i].power == cfg.power && cells[i].ctype == cfg.ctype;
        return;
      }
      i := FindFreeCell();
      if i == cells.Length {
        return false;
      }
      ghost var t := Tables();
      assert !t.cells[i].active;
      cells[i] := Cell(true, cfg.id, cfg.power, cfg.ctype, 0);
      assert Tables() == Set(t, i, cells[i], freqs[i]);
      EstablishView(t, i, cfg);
      SetSound(t, i, cells[i], freqs[i], log);
      return true;
    }

    method ReconfigCell(cfg: CellCfg) returns (ok: bool)
      requires Valid() && cfg.flag == CELL_RECONFIG
      modifies cells
      ensures TableInv(Tables()) && Sound(Tables(), log)
      ensures CellChange(old(Tables()), Tables(), cfg, ok)
    {
      var i := FindCell(cfg.id);
      if i == cells.Length {
        return false;
      }
      ghost var t := Tables();
      cells[i] := cells[i].(power := cfg.power);
      assert Tables() == Set(t, i, cells[i], freqs[i]);
      ReconfigView(t, i, cfg);
      SetSound(t, i, cells[i], freqs[i], log);
      return true;
    }

    method ClearRow(i: nat)
      requires i < freqs.Length && |freqs[i]| == MAX_FREQS_PER_CELL
      modifies freqs
      ensures |freqs[i]| == MAX_FREQS_PER_CELL && forall k :: 0 <= k < MAX_FREQS_PER_CELL ==>
                !freqs[i][k].active && !freqs[i][k].sent
      ensures freqs[..] == old(freqs[..])[i := freqs[i]]
    {
      var j := 0;
      while j < MAX_FREQS_PER_CELL
        invariant 0 <= j <= MAX_FREQS_PER_CELL && |freqs[i]| == MAX_FREQS_PER_CELL
        invariant forall k :: 0 <= k < freqs.Length && k != i ==> freqs[k] == old(freqs[k])
        invariant forall k :: 0 <= k < j ==> !freqs[i][k].active && !freqs[i][k].sent
      {
        freqs[i] := freqs[i][j := freqs[i][j].(active := false, sent := false)];
        j := j + 1;
      }
    }

    /** The table part of deleting the cell in slot `i`. */
    method RemoveCell(i: nat, cfg: CellCfg)
      requires TableInv(Tables()) && Sound(Tables(), log) && i < MAX_CELLS
      requires i == CellSlot(cells[..], cfg.id) && cfg.flag == CELL_DELETE
      modifies cells, freqs
      ensures TableInv(Tables()) && Sound(Tables(), log)
      ensures CellChange(old(Tables()), Tables(), cfg, true)
    {
      ghost var t := Tables();
      assert RowInv(t.cells[i], t.rows[i]);
      ClearRow(i);
      cells[i] := cells[i].(freqCount := 0, active := false);
      assert cells[..] == t.cells[i := cells[i]];
      DeleteView(t, i, freqs[i], cfg);
      SetSound(t, i, cells[i], freqs[i], log);
    }

    method DeleteCell(cfg: CellCfg, txSent: bool) returns (ok: bool)
      requires Valid() && cfg.flag == CELL_DELETE
      modifies cells, freqs, gate
      ensures Valid()
      ensures CellChange(old(Tables()), Tables(), cfg, ok)
      ensures gate.linkOk == old(gate.linkOk)
      ensures gate.commands == old(gate.commands)
              + if CellOf(old(Tables()), cfg.id).Some? then TxUpdate(gate.linkOk, AnySent(Tables()), txSent) else []
    {
      var i := FindCell(cfg.id);
      if i == cells.Length {
        DeleteAbsent(Tables(), cfg);
        return true;
      }
      RemoveCell(i, cfg);
      UpdateTxControl(txSent);
      return true;
    }

    /** cell_config_apply_cell */
    method ApplyCell(cfg: CellCfg, txSent: bool) returns (ok: bool)
      requires Valid()
      modifies cells, freqs, gate
      ensures Valid()
      ensures CellChange(old(Tables()), Tables(), cfg, ok)
      ensures gate.linkOk == old(gate.linkOk)
      ensures gate.commands == old(gate.commands)
              + if cfg.flag == CELL_DELETE && CellOf(old(Tables()), cfg.id).Some?
                then TxUpdate(gate.linkOk, AnySent(Tables()), txSent) else []
    {
      if cfg.flag == CELL_ESTABLISH {
        ok := EstablishCell(cfg);
      } else if cfg.flag == CELL_RECONFIG {
        ok := ReconfigCell(cfg);
      } else if cfg.flag == CELL_DELETE {
        ok := DeleteCell(cfg, txSent);
      } else {
        ok := false;
      }
    }

    // ---- frequencies

    method FindFreeFreq(i: nat) returns (j: nat)
      requires i < freqs.Length
      ensures j <= |freqs[i]| && (j < |freqs[i]| ==> !freqs[i][j].active)
      ensures j == |freqs[i]| ==> forall k :: 0 <= k < |freqs[i]| ==> freqs[i][k].active
    {
      j := 0;
      while j < |freqs[i]|
        invariant 0 <= j <= |freqs[i]|
        invariant forall k :: 0 <= k < j ==> freqs[i][k].active
      {
        if !freqs[i][j].active {
          break;
        }
        j := j + 1;
      }
    }

    /** Find the beam's slot or a free one, count it, and store the request as not sent. */
    method StoreFreq(i: nat, cfg: FreqCfg) returns (j: nat)
      requires TableInv(Tables()) && Sound(Tables(), log) && i < MAX_CELLS && i == CellSlot(cells[..], cfg.cell)
      modifies cells, freqs
      ensures TableInv(Tables()) && Sound(Tables(), log)
      ensures j <= MAX_FREQS_PER_CELL && (j < MAX_FREQS_PER_CELL <==> HasRoom(old(Tables()), cfg.cell, cfg.beam))
      ensures j == MAX_FREQS_PER_CELL ==> Tables() == old(Tables())
      ensures j < MAX_FREQS_PER_CELL ==> FreqStored(old(Tables()), Tables(), cfg, Some(Stored(cfg, false)))
      ensures i == CellSlot(cells[..], cfg.cell)
      ensures j < MAX_FREQS_PER_CELL ==> |freqs[i]| == MAX_FREQS_PER_CELL && freqs[i][j] == Stored(cfg, false)
    {
      hide CellSlot, BeamSlot, CountTo;
      ghost var t := Tables();
      assert RowInv(t.cells[i], t.rows[i]);
      j := FindBeam(i, cfg.beam);
      if j == MAX_FREQS_PER_CELL {
        j := FindFreeFreq(i);
        RoomIsFree(t, i, cfg, j);
        if j == MAX_FREQS_PER_CELL {
          return;
        }
        cells[i] := cells[i].(freqCount := Inc(cells[i].freqCount));
      }
      PutEffect(t, i, j, cfg, Stored(cfg, false), log);
      freqs[i] := freqs[i][j := Stored(cfg, false)];
      assert Tables() == Put(t, i, j, Stored(cfg, false));
    }

    /** Mark the record in slot (i, j), whose parameters the antenna has confirmed. */
    method MarkSent(i: nat, j: nat, cfg: FreqCfg)
      requires TableInv(Tables()) && Sound(Tables(), log) && i < MAX_CELLS && i == CellSlot(cells[..], cfg.cell)
      requires j < MAX_FREQS_PER_CELL && |freqs[i]| == MAX_FREQS_PER_CELL
      requires freqs[i][j].active && freqs[i][j].beam == cfg.beam
      requires Proven(log, freqs[i][j].triple)
      modifies freqs
      ensures TableInv(Tables()) && Sound(Tables(), log)
      ensures FreqStored(old(Tables()), Tables(), cfg, Some(old(freqs[i][j]).(sent := true)))
    {
      hide CellSlot, BeamSlot, CountTo, Proven;
      ghost var t := Tables();
      BeamSlotIsHere(t, i, j, cfg);
      PutEffect(t, i, j, cfg, freqs[i][j].(sent := true), log);
      freqs[i] := freqs[i][j := freqs[i][j].(sent := true)];
      assert Tables() == Put(t, i, j, freqs[i][j]);
    }

    /** FREQ_CFG_DELETE, the table part. */
    method RemoveFreq(i: nat, cfg: FreqCfg) returns (removed: bool)
      requires TableInv(Tables()) && Sound(Tables(), log) && i < MAX_CELLS && i == CellSlot(cells[..], cfg.cell)
      modifies cells, freqs
      ensures TableInv(Tables()) && Sound(Tables(), log)
      ensures removed == Beam(old(Tables()), cfg.cell, cfg.beam).Some?
      ensures FreqStored(old(Tables()), Tables(), cfg, None)
    {
      hide CellSlot, BeamSlot, CountTo;
      ghost var t := Tables();
      assert RowInv(t.cells[i], t.rows[i]);
      var j := FindBeam(i, cfg.beam);
      if j == MAX_FREQS_PER_CELL {
        return false;
      }
      DropEffect(t, i, j, cfg, log);
      freqs[i] := freqs[i][j := freqs[i][j].(active := false, sent := false)];
      cells[i] := cells[i].(freqCount := Dec(cells[i].freqCount));
      assert Tables() == Put(t, i, j, freqs[i][j]);
      return true;
    }

    /** Look for a record of this cell that was sent with the same parameters. */
    method FindDuplicate(i: nat, cfg: FreqCfg) returns (found: bool)
      requires TableInv(Tables()) && Sound(Tables(), log) && i < MAX_CELLS && i == CellSlot(cells[..], cfg.cell)
      ensures found == Duplicate(Tables(), cfg.cell, cfg.triple)
      ensures found ==> Proven(log, cfg.triple)
    {
      assert RowInv(Tables().cells[i], Tables().rows[i]) && RowSound(Tables().rows[i], log);
      for j := 0 to MAX_FREQS_PER_CELL
        invariant forall k :: 0 <= k < j ==>
                    !(freqs[i][k].active && freqs[i][k].sent && freqs[i][k].triple == cfg.triple)
      {
        if freqs[i][j].active && freqs[i][j].sent && freqs[i][j].triple == cfg.triple {
          SlotIsKey(Tables(), i, j);
          assert SentAt(Tables(), cfg.cell, freqs[i][j].beam);
          return true;
        }
      }
      return false;
    }

    /** Look for the beam's record with the parameters that were sent. */
    method FindRecord(i: nat, cfg: FreqCfg) returns (j: nat)
      requires TableInv(Tables()) && i < MAX_CELLS && i == CellSlot(cells[..], cfg.cell)
      ensures j <= MAX_FREQS_PER_CELL == |freqs[i]| && (j < MAX_FREQS_PER_CELL <==> IsThere(Tables(), cfg))
      ensures j < MAX_FREQS_PER_CELL ==>
                freqs[i][j].active && freqs[i][j].triple == cfg.triple
                  && Beam(Tables(), cfg.cell, cfg.beam) == Some(freqs[i][j])
    {
      assert RowInv(Tables().cells[i], Tables().rows[i]);
      j := 0;
      while j < MAX_FREQS_PER_CELL
        invariant 0 <= j <= MAX_FREQS_PER_CELL
        invariant forall k :: 0 <= k < j ==>
                    !(freqs[i][k].active && freqs[i][k].beam == cfg.beam && freqs[i][k].triple == cfg.triple)
      {
        if freqs[i][j].active && freqs[i][j].beam == cfg.beam && freqs[i][j].triple == cfg.triple {
          SlotIsKey(Tables(), i, j);
          return;
        }
        j := j + 1;
      }
    }

    /** cell_config_apply_freq up to the point where it returns or gives up the lock to wait. */
    method BeginFreq(caller: nat, cfg: FreqCfg, mode: Option<u32>, bandSent: bool, txSent: bool)
      returns (ok: bool, waits: bool)
      requires Valid() && caller !in waiting
      modifies this, cells, freqs, gate
      ensures Valid()
      ensures FreqBegun(old(Tables()), Tables(), cfg, RightMode(mode), bandSent, ok, waits)
      ensures waiting == if waits then old(waiting)[caller := cfg] else old(waiting)
      ensures log == if waits then old(log) + [BandSent(caller, cfg.triple)] else old(log)
      // transmission is looked at again only after a delete or a skipped command
      ensures gate.linkOk == old(gate.linkOk)
      ensures gate.commands == old(gate.commands)
              + if TxLookedAt(old(Tables()), cfg, RightMode(mode))
                  then TxUpdate(gate.linkOk, AnySent(Tables()), txSent) else []
    {
      waits := false;
      var i := FindCell(cfg.cell);
      if i == cells.Length {
        return false, false;
      }
      if cfg.flag == FREQ_DELETE {
        var removed := RemoveFreq(i, cfg);
        if removed {
          UpdateTxControl(txSent);
        }
        return true, false;
      }
      if cfg.flag != FREQ_ESTABLISH {
        return false, false;
      }
      if !RightMode(mode) {
        var j := StoreFreq(i, cfg);
        return false, false;
      }
      ok, waits := EstablishFreq(i, caller, cfg, bandSent, txSent);
    }

    /** FREQ_CFG_ESTABLISH in a mode that takes band commands. */
    method EstablishFreq(i: nat, caller: nat, cfg: FreqCfg, bandSent: bool, txSent: bool)
      returns (ok: bool, waits: bool)
      requires Valid() && caller !in waiting && cfg.flag == FREQ_ESTABLISH
      requires i < MAX_CELLS && i == CellSlot(cells[..], cfg.cell)
      modifies this, cells, freqs, gate
      ensures Valid()
      ensures FreqBegun(old(Tables()), Tables(), cfg, true, bandSent, ok, waits)
      ensures waiting == if waits then old(waiting)[caller := cfg] else old(waiting)
      ensures log == if waits then old(log) + [BandSent(caller, cfg.triple)] else old(log)
      ensures gate.linkOk == old(gate.linkOk)
      ensures gate.commands == old(gate.commands)
              + if TxLookedAt(old(Tables()), cfg, true) then TxUpdate(gate.linkOk, AnySent(Tables()), txSent) else []
    {
      hide TableInv, Sound, CellSlot, Proven, TxUpdate, Duplicate, HasRoom;
      var skip := FindDuplicate(i, cfg);
      var j := StoreFreq(i, cfg);
      if j == MAX_FREQS_PER_CELL {
        return false, false;
      }
      if skip {
        MarkSent(i, j, cfg);
        UpdateTxControl(txSent);
        return true, false;
      }
      if bandSent {
        LogGrows(Tables(), waiting, log, BandSent(caller, cfg.triple));
        NewWaiter(waiting, log, caller, cfg);
        log := log + [BandSent(caller, cfg.triple)];
        waiting := waiting[caller := cfg];
      }
      return false, bandSent;
    }

    /**
      The rest of cell_config_apply_freq for a caller that has waited: it finds its record again,
      because the tables may have changed in any way while the lock was free.
     */
    method FinishFreq(caller: nat, poll: Reads, txSent: bool) returns (ok: bool)
      requires Valid() && caller in waiting
      modifies this, cells, freqs, gate
      ensures Valid()
      ensures waiting == old(waiting) - {caller}
      ensures ok <==> Waited(poll) == WaitSuccess && IsThere(old(Tables()), old(waiting)[caller])
      ensures FreqFinished(old(Tables()), Tables(), old(waiting)[caller], ok)
      ensures log == old(log)
              + if Waited(poll) == WaitSuccess then [ModeCycled(caller, old(waiting)[caller].triple)] else []
      ensures gate.linkOk == old(gate.linkOk)
      ensures gate.commands == old(gate.commands) + if ok then TxUpdate(gate.linkOk, AnySent(Tables()), txSent) else []
    {
      hide TableInv, Sound, CellSlot, BeamSlot, Proven, TxUpdate, Waited;
      var cfg := waiting[caller];
      var r := WaitForModeCycle(poll);
      if r == WaitSuccess {
        LogGrows(Tables(), waiting, log, ModeCycled(caller, cfg.triple));
        NewProof(log, caller, cfg.triple, waiting);
        log := log + [ModeCycled(caller, cfg.triple)];
      }
      waiting := waiting - {caller};
      var i := FindCell(cfg.cell);
      if i == cells.Length {
        return false;
      }
      var j := FindRecord(i, cfg);
      if j == MAX_FREQS_PER_CELL || r != WaitSuccess {
        return false;
      }
      MarkSent(i, j, cfg);
      UpdateTxControl(txSent);
      return true;
    }

    ghost function Now(): Moment
      reads this, cells, freqs, gate
    {
      Moment(Tables(), gate.txOn, gate.linkOk, waiting)
    }

    method DoFreq(caller: nat, cfg: FreqCfg, mode: Option<u32>, bandSent: bool, txSent: bool)
      requires Valid() && caller !in waiting
      modifies this, cells, freqs, gate
      ensures Valid() && old(log) <= log
      ensures StepOf(old(Now()), FreqRequest(caller, cfg, mode, bandSent, txSent), Now())
    {
      hide TableInv, Sound, FreqBegun, TxUpdate, TxLookedAt;
      TableShape(Tables());
      ghost var was, looked := gate.commands, TxLookedAt(Tables(), cfg, RightMode(mode));
      var ok, waits := BeginFreq(caller, cfg, mode, bandSent, txSent);
      TxFollows(was, gate.commands, gate.linkOk, looked, AnySent(Tables()), txSent);
    }

    method DoWait(caller: nat, poll: Reads, txSent: bool)
      requires Valid() && caller in waiting
      modifies this, cells, freqs, gate
      ensures Valid() && old(log) <= log
      ensures StepOf(old(Now()), WaitOver(caller, poll, txSent), Now())
    {
      hide TableInv, Sound, FreqFinished, Waited, TxUpdate;
      TableShape(Tables());
      ghost var was := gate.commands;
      var ok := FinishFreq(caller, poll, txSent);
      TxFollows(was, gate.commands, gate.linkOk, ok, AnySent(Tables()), txSent);
    }

    /** One step of one thread. A step whose thread is not there does nothing. */
    method Do(e: Event)
      requires Valid()
      modifies this, cells, freqs, gate
      ensures Valid() && old(log) <= log
      ensures StepOf(old(Now()), e, Now())
    {
      hide TableInv, Sound, FreqBegun, CellChange, FreqFinished, Waited, TxUpdate, TxLookedAt;
      TableShape(Tables());
      ghost var was := gate.commands;
      match e
      case CellRequest(cfg, txSent) =>
        ghost var deletes := cfg.flag == CELL_DELETE && CellOf(Tables(), cfg.id).Some?;
        var ok := ApplyCell(cfg, txSent);
        TxFollows(was, gate.commands, gate.linkOk, deletes, AnySent(Tables()), txSent);
      case FreqRequest(caller, cfg, mode, bandSent, txSent) =>
        if caller !in waiting {
          DoFreq(caller, cfg, mode, bandSent, txSent);
        }
      case WaitOver(caller, poll, txSent) =>
        if caller in waiting {
          DoWait(caller, poll, txSent);
        }
      case Link(up, sent) =>
        gate.NotifyBbuLink(up, sent);
        OffFollows(was, gate.commands, !up, sent);
    }

    /**
      Any number of callers, interleaved in any way where the code gives up its lock. Throughout,
      the tables are consistent, and a beam is taken for sent only if some call sent exactly its
      present parameters and then saw the antenna's mode cycle succeed.
     */
    method Run(events: seq<Event>) returns (ghost trace: seq<Moment>)
      requires Valid()
      modifies this, cells, freqs, gate
      ensures Valid() && old(log) <= log
      ensures forall id, beam :: SentAt(Tables(), id, beam) ==> Proven(log, Beam(Tables(), id, beam).value.triple)
      ensures IsRun(trace, events) && trace[0] == old(Now()) && trace[|events|] == Now()
    {
      hide StepOf, TableInv, Sound;
      TableShape(Tables());
      trace := [Now()];
      assert events[..0] == [];
      for k := 0 to |events|
        invariant Valid() && old(log) <= log
        invariant IsRun(trace, events[..k]) && trace[0] == old(Now()) && trace[k] == Now()
      {
        Do(events[k]);
        RunGrows(trace, events[..k], events[k], Now());
        assert events[..k] + [events[k]] == events[..k + 1];
        trace := trace + [Now()];
      }
      assert events[..|events|] == events;
      SentIsProven(Tables(), log);
    }
  }

  datatype Event =
    | CellRequest(cell: CellCfg, txSent: bool)
    | FreqRequest(caller: nat, freq: FreqCfg, mode: Option<u32>, bandSent: bool, txSent: bool)
    | WaitOver(caller: nat, poll: Reads, txSent: bool)
    | Link(up: bool, sent: bool)

  /** The tables, what g_tx_on and g_bbu_link_ok say, and who is waiting for the antenna. */
  datatype Moment = Moment(table: Table, txOn: bool, linkOk: bool, waiting: map<nat, FreqCfg>)

  /** g_tx_on after a step that looks at transmission, or does not. */
  ghost function TxAfter(m: Moment, u: Table, looked: bool, txSent: bool): bool
    requires Shaped(u)
  {
    if looked && m.linkOk && txSent then AnySent(u) else m.txOn
  }

  /** What one step does to the state of the whole. */
  ghost predicate StepOf(a: Moment, e: Event, b: Moment) {
    TableInv(a.table) && TableInv(b.table) && Shaped(a.table) && Shaped(b.table) &&
    match e
    case CellRequest(cfg, txSent) =>
      var deletes := cfg.flag == CELL_DELETE && CellOf(a.table, cfg.id).Some?;
      && (exists ok :: CellChange(a.table, b.table, cfg, ok))
      && b == a.(table := b.table, txOn := TxAfter(a, b.table, deletes, txSent))
    case FreqRequest(caller, cfg, mode, bandSent, txSent) =>
      if caller in a.waiting then b == a
      else
        var looked := TxLookedAt(a.table, cfg, RightMode(mode));
        exists ok, waits ::
          && FreqBegun(a.table, b.table, cfg, RightMode(mode), bandSent, ok, waits)
          && b == a.(table := b.table, txOn := TxAfter(a, b.table, looked, txSent),
                     waiting := if waits then a.waiting[caller := cfg] else a.waiting)
    case WaitOver(caller, poll, txSent) =>
      if caller !in a.waiting then b == a
      else
        var ok := Waited(poll) == WaitSuccess && IsThere(a.table, a.waiting[caller]);
        && FreqFinished(a.table, b.table, a.waiting[caller], ok)
        && b == a.(table := b.table, txOn := TxAfter(a, b.table, ok, txSent), waiting := a.waiting - {caller})
    case Link(up, sent) => b == a.(linkOk := up, txOn := a.txOn && (up || !sent))
  }

  predicate Shaped(t: Table) {
    |t.rows| == |t.cells|
  }

  lemma TableShape(t: Table)
    requires TableInv(t)
    ensures Shaped(t)
  {
  }

  lemma TxFollows(was: seq<TxGate.Command>, now: seq<TxGate.Command>, linkOk: bool, looked: bool, any: bool, sent: bool)
    requires now == was + if looked then TxUpdate(linkOk, any, sent) else []
    ensures TxGate.Antenna(now) == if looked && linkOk && sent then any else TxGate.Antenna(was)
  {
    if looked && linkOk {
      assert now[..|was|] == was && now[|was|] == TxGate.Command(any, sent, true);
    } else {
      assert now == was;
    }
  }

  lemma OffFollows(was: seq<TxGate.Command>, now: seq<TxGate.Command>, down: bool, sent: bool)
    requires now == if down && TxGate.Antenna(was) then was + [TxGate.Command(false, sent, false)] else was
    ensures TxGate.Antenna(now) == (TxGate.Antenna(was) && (!down || !sent))
  {
    if now != was {
      assert now[..|was|] == was && now[|was|] == TxGate.Command(false, sent, false);
    }
  }

  /** A run: each moment follows from the one before it by one step. */
  ghost predicate IsRun(trace: seq<Moment>, events: seq<Event>) {
    && |trace| == |events| + 1 && (forall m :: m in trace ==> TableInv(m.table) && Shaped(m.table))
    && forall k :: 0 <= k < |events| ==> StepOf(trace[k], events[k], trace[k + 1])
  }

  lemma StepTables(a: Moment, e: Event, b: Moment)
    requires StepOf(a, e, b)
    ensures TableInv(b.table) && Shaped(b.table)
  {
  }

  lemma RunGrows(trace: seq<Moment>, events: seq<Event>, e: Event, m: Moment)
    requires IsRun(trace, events) && StepOf(trace[|events|], e, m)
    ensures IsRun(trace + [m], events + [e])
  {
    StepTables(trace[|events|], e, m);
    hide StepOf, TableInv;
    var t, es := trace + [m], events + [e];
    forall k | 0 <= k < |es| ensures StepOf(t[k], es[k], t[k + 1]) {
      if k < |events| {
        assert StepOf(trace[k], events[k], trace[k + 1]);
      }
    }
  }

  lemma SentIsProven(t: Table, log: seq<Act>)
    requires TableInv(t) && Sound(t, log)
    ensures forall id, beam :: SentAt(t, id, beam) ==> Proven(log, Beam(t, id, beam).value.triple)
  {
    forall id, beam | SentAt(t, id, beam) ensures Proven(log, Beam(t, id, beam).value.triple) {
      assert RowSound(t.rows[CellSlot(t.cells, id)], log);
    }
  }

  // ---------------------------------------------------------------- transmitting with nothing sent

  /** The antenna transmits though no beam of any cell is marked sent. */
  ghost predicate Stranded(m: Moment)
    requires Shaped(m.table)
  {
    m.txOn && !AnySent(m.table)
  }

  /**
    The request stores its beam as not sent without a look at transmission, and no other beam is
    marked sent: the antenna takes no band commands in its mode, or its parameters are new, whether
    or not the command then goes out.
   */
  ghost predicate Demotes(t: Table, cfg: FreqCfg, rightMode: bool)
    requires |t.rows| == |t.cells|
  {
    cfg.flag == FREQ_ESTABLISH && !(rightMode && Duplicate(t, cfg.cell, cfg.triple)) && !SentElsewhere(t, cfg)
  }

  /** A beam other than the request's is marked sent. */
  ghost predicate SentElsewhere(t: Table, cfg: FreqCfg)
    requires |t.rows| == |t.cells|
  {
    exists id: u32, beam: byte :: SentAt(t, id, beam) && !(id == cfg.cell && beam == cfg.beam)
  }

  lemma ElsewhereIsSent(t: Table, cfg: FreqCfg)
    requires |t.rows| == |t.cells|
    ensures SentElsewhere(t, cfg) ==> AnySent(t)
  {
  }

  lemma SentKept(t: Table, u: Table)
    requires |t.rows| == |t.cells| && |u.rows| == |u.cells|
    requires forall id, beam :: Beam(u, id, beam) == Beam(t, id, beam)
    ensures AnySent(u) <==> AnySent(t)
  {
    if AnySent(t) {
      var id, beam :| SentAt(t, id, beam);
      assert SentAt(u, id, beam);
    }
    if AnySent(u) {
      var id, beam :| SentAt(u, id, beam);
      assert SentAt(t, id, beam);
    }
  }

  /** After a beam has been stored as not sent, something is sent if and only if another beam was. */
  lemma SentAfterDemotion(t: Table, u: Table, cfg: FreqCfg)
    requires |t.rows| == |t.cells| && |u.rows| == |u.cells| && FreqStored(t, u, cfg, Some(Stored(cfg, false)))
    ensures AnySent(u) <==> SentElsewhere(t, cfg)
  {
    if AnySent(u) {
      var id: u32, beam: byte :| SentAt(u, id, beam);
      assert SentAt(t, id, beam) && !(id == cfg.cell && beam == cfg.beam);
    }
    if SentElsewhere(t, cfg) {
      var id: u32, beam: byte :| SentAt(t, id, beam) && !(id == cfg.cell && beam == cfg.beam);
      assert SentAt(u, id, beam);
    }
  }

  /** Cell requests other than a delete change no beam. */
  lemma CellKeepsSent(t: Table, u: Table, cfg: CellCfg, ok: bool)
    requires TableInv(t) && TableInv(u) && CellChange(t, u, cfg, ok)
    requires cfg.flag != CELL_DELETE || CellOf(t, cfg.id) == None
    ensures AnySent(u) <==> AnySent(t)
  {
    hide RowInv;
    forall id, beam ensures Beam(u, id, beam) == Beam(t, id, beam) {
      if id == cfg.id && CellOf(t, id).None? {
        NoCellNoBeams(t, id, beam);
      }
      if u != t && id != cfg.id {
        assert CellOf(u, id) == CellOf(t, id);
      }
    }
    SentKept(t, u);
  }

  /** A request for a beam that alone is sent finds its cell and its slot. */
  lemma SentHasRoom(t: Table, cfg: FreqCfg)
    requires TableInv(t) && AnySent(t) && !SentElsewhere(t, cfg)
    ensures CellOf(t, cfg.cell).Some? && HasRoom(t, cfg.cell, cfg.beam)
  {
    hide RowInv;
    var id: u32, beam: byte :| SentAt(t, id, beam);
    NoCellNoBeams(t, cfg.cell, cfg.beam);
  }

  /** Where a frequency request is not followed by a look at transmission, what it leaves sent. */
  lemma BegunUnlooked(t: Table, u: Table, cfg: FreqCfg, rightMode: bool, bandSent: bool, ok: bool, waits: bool)
    requires TableInv(t) && TableInv(u) && FreqBegun(t, u, cfg, rightMode, bandSent, ok, waits)
    requires !TxLookedAt(t, cfg, rightMode)
    ensures AnySent(u) <==> AnySent(t) && !Demotes(t, cfg, rightMode)
  {
    hide RowInv, CellOf, HasRoom, Duplicate;
    ElsewhereIsSent(t, cfg);
    if AnySent(t) && Demotes(t, cfg, rightMode) {
      SentHasRoom(t, cfg);
      SentAfterDemotion(t, u, cfg);
    } else if u != t {
      if cfg.flag == FREQ_DELETE {
        SentKept(t, u);
      } else {
        SentAfterDemotion(t, u, cfg);
      }
    }
  }

  /** The commands a step puts on the line to control transmission go out. */
  predicate CommandsGoOut(e: Event) {
    match e
    case CellRequest(_, txSent) => txSent
    case FreqRequest(_, _, _, _, txSent) => txSent
    case WaitOver(_, _, txSent) => txSent
    case Link(_, sent) => sent
  }

  /** With the link down nothing is taken to transmit: what its loss puts on the line went out. */
  predicate LossStopped(m: Moment) {
    !m.linkOk ==> !m.txOn
  }

  /** The step demotes the only beam that is sent, while the antenna transmits. */
  ghost predicate DemotesAt(m: Moment, e: Event)
    requires Shaped(m.table)
  {
    m.txOn && e.FreqRequest? && e.caller !in m.waiting && Demotes(m.table, e.freq, RightMode(e.mode))
  }

  /** The step ends with a look at transmission, or with the link down. */
  ghost predicate SetsRight(m: Moment, e: Event)
    requires Shaped(m.table)
  {
    match e
    case CellRequest(cfg, _) => cfg.flag == CELL_DELETE && CellOf(m.table, cfg.id).Some?
    case FreqRequest(caller, cfg, mode, _, _) =>
      caller !in m.waiting && TxLookedAt(m.table, cfg, RightMode(mode))
    case WaitOver(caller, poll, _) =>
      caller in m.waiting && Waited(poll) == WaitSuccess && IsThere(m.table, m.waiting[caller])
    case Link(up, _) => !up
  }

  /**
    Any step of any caller whose transmit commands go out. It leaves the antenna transmitting with
    nothing sent if and only if it demotes the only beam that was sent, or found the antenna so and
    neither looks at transmission nor ends with the link down.
   */
  lemma StrandedNext(a: Moment, e: Event, b: Moment)
    requires StepOf(a, e, b) && CommandsGoOut(e) && LossStopped(a)
    ensures LossStopped(b)
    ensures Stranded(b) <==>
            DemotesAt(a, e) || (Stranded(a) && !SetsRight(a, e))
  {
    hide TableInv, RowInv, Demotes, FreqBegun, FreqStored, CellChange, TxLookedAt, CellOf, Waited, IsThere, AnySent;
    match e
    case CellRequest(cfg, txSent) =>
      if !SetsRight(a, e) {
        var ok :| CellChange(a.table, b.table, cfg, ok);
        CellKeepsSent(a.table, b.table, cfg, ok);
      }
    case FreqRequest(caller, cfg, mode, bandSent, txSent) =>
      if caller !in a.waiting {
        var ok, waits :| FreqBegun(a.table, b.table, cfg, RightMode(mode), bandSent, ok, waits);
        if TxLookedAt(a.table, cfg, RightMode(mode)) {
          LookedNotDemoted(a.table, cfg, RightMode(mode));
        } else {
          BegunUnlooked(a.table, b.table, cfg, RightMode(mode), bandSent, ok, waits);
        }
      }
    case WaitOver(caller, poll, txSent) =>
    case Link(up, sent) =>
  }

  lemma LookedNotDemoted(t: Table, cfg: FreqCfg, rightMode: bool)
    requires |t.rows| == |t.cells| && TxLookedAt(t, cfg, rightMode)
    ensures !Demotes(t, cfg, rightMode)
  {
  }

  /**
    A whole run whose transmit commands go out, from a moment at which the antenna transmits only
    with something sent and the link up: it is never found transmitting with nothing sent if and only
    if no request demotes the only beam that is sent while it transmits.
   */
  lemma OnlyDemotionStrands(trace: seq<Moment>, events: seq<Event>)
    requires IsRun(trace, events) && forall k :: 0 <= k < |events| ==> CommandsGoOut(events[k])
    requires LossStopped(trace[0]) && !Stranded(trace[0])
    ensures (exists k :: 0 <= k < |trace| && Stranded(trace[k])) <==>
            (exists k :: 0 <= k < |events| && DemotesAt(trace[k], events[k]))
  {
    hide StepOf, Stranded, DemotesAt, TableInv;
    forall k | 0 <= k < |events|
      ensures DemotesAt(trace[k], events[k]) ==> Stranded(trace[k + 1])
    {
      LossStoppedAlong(trace, events, k);
      StrandedNext(trace[k], events[k], trace[k + 1]);
    }
    for n := 0 to |events|
      invariant (exists k :: 0 <= k <= n && Stranded(trace[k])) ==>
                (exists k :: 0 <= k < n && DemotesAt(trace[k], events[k]))
    {
      LossStoppedAlong(trace, events, n);
      StrandedNext(trace[n], events[n], trace[n + 1]);
    }
    if k :| 0 <= k < |trace| && Stranded(trace[k]) {
      assert 0 <= k <= |events| && Stranded(trace[k]);
    }
    if k :| 0 <= k < |events| && DemotesAt(trace[k], events[k]) {
      assert Stranded(trace[k + 1]);
    }
  }

  lemma {:induction false} LossStoppedAlong(trace: seq<Moment>, events: seq<Event>, n: nat)
    requires IsRun(trace, events) && forall k :: 0 <= k < |events| ==> CommandsGoOut(events[k])
    requires LossStopped(trace[0]) && n <= |events|
    ensures LossStopped(trace[n])
  {
    hide StepOf, LossStopped, TableInv;
    if n > 0 {
      LossStoppedAlong(trace, events, n - 1);
      StrandedNext(trace[n - 1], events[n - 1], trace[n]);
    }
  }

  /**
    What a wait can restore: an antenna that transmits with nothing sent is made honest if and only if
    the wait succeeds and the beam still carries the parameters that were sent; a wait that timed out
    leaves it so.
   */
  lemma WaitRestores(a: Moment, e: Event, b: Moment)
    requires StepOf(a, e, b) && CommandsGoOut(e) && LossStopped(a)
    requires e.WaitOver? && e.caller in a.waiting && Stranded(a)
    ensures Stranded(b) <==> !(Waited(e.poll) == WaitSuccess && IsThere(a.table, a.waiting[e.caller]))
  {
    hide StepOf;
    StrandedNext(a, e, b);
  }

  /**
    The family in which transmission outlives what was sent: one beam alone is sent, transmission is
    on, and that beam is asked for again in a mode that takes no band commands, or with parameters the
    cell has not sent, whether or not the band command then goes out.
   */
  lemma DemotionLeavesTx(a: Moment, e: Event, b: Moment)
    requires StepOf(a, e, b) && CommandsGoOut(e) && LossStopped(a)
    requires e.FreqRequest? && e.caller !in a.waiting && e.freq.flag == FREQ_ESTABLISH
    requires !RightMode(e.mode) || !Duplicate(a.table, e.freq.cell, e.freq.triple)
    requires forall id, beam :: SentAt(a.table, id, beam) <==> id == e.freq.cell && beam == e.freq.beam
    requires a.txOn
    ensures Stranded(b)
  {
    hide StepOf;
    StrandedNext(a, e, b);
  }

  // ---------------------------------------------------------------- answers, and transmission after a success

  /**
    A frequency request that is to establish a beam is answered with success, without a wait, exactly
    when it leaves the beam marked sent, with the parameters asked for.
   */
  lemma EstablishedMeansSent(t: Table, u: Table, cfg: FreqCfg, rightMode: bool, bandSent: bool, ok: bool, waits: bool)
    requires TableInv(t) && TableInv(u) && FreqBegun(t, u, cfg, rightMode, bandSent, ok, waits)
    requires cfg.flag == FREQ_ESTABLISH
    ensures ok <==> SentAt(u, cfg.cell, cfg.beam)
    ensures CellOf(t, cfg.cell).Some? && (ok || waits) ==>
              var f := Beam(u, cfg.cell, cfg.beam);
              f.Some? && f.value.triple == cfg.triple && f.value.ulDl == cfg.ulDl && f.value.special == cfg.special
    ensures waits ==> rightMode && bandSent && !SentAt(u, cfg.cell, cfg.beam)
  {
    hide RowInv;
    NoCellNoBeams(t, cfg.cell, cfg.beam);
    NoCellNoBeams(u, cfg.cell, cfg.beam);
  }

  /** What a cell request is answered says what the base station will find. */
  lemma CellAnswered(t: Table, u: Table, cfg: CellCfg, ok: bool)
    requires TableInv(t) && TableInv(u) && CellChange(t, u, cfg, ok)
    ensures var c := CellOf(u, cfg.id);
            && (cfg.flag == 0 ==> (ok <==> c.Some? && c.value.power == cfg.power && c.value.ctype == cfg.ctype))
            && (cfg.flag == 0 && CellOf(t, cfg.id).Some? ==> u == t)
            && (cfg.flag == 1 ==> (ok <==> c.Some?) && (ok <==> CellOf(t, cfg.id).Some?))
            && (cfg.flag == 1 && ok ==> c.value.power == cfg.power && c.value.ctype == CellOf(t, cfg.id).value.ctype)
            && (cfg.flag == 2 ==> ok && c == None)
            && (cfg.flag > 2 ==> !ok && u == t)
  {
    hide RowInv;
  }

  /**
    With the link up and the command going out, transmission is on after every request that ended in
    success with its beam marked sent: when the band command was skipped ...
   */
  lemma SkippedTurnsOn(a: Moment, e: Event, b: Moment)
    requires StepOf(a, e, b) && e.FreqRequest? && e.caller !in a.waiting && e.freq.flag == FREQ_ESTABLISH
    requires a.linkOk && e.txSent && SentAt(b.table, e.freq.cell, e.freq.beam)
    ensures b.txOn
  {
    hide RowInv;
    NoCellNoBeams(a.table, e.freq.cell, e.freq.beam);
  }

  /** ... and when the antenna was waited for. */
  lemma WaitedTurnsOn(a: Moment, e: Event, b: Moment)
    requires StepOf(a, e, b) && e.WaitOver? && e.caller in a.waiting
    requires Waited(e.poll) == WaitSuccess && IsThere(a.table, a.waiting[e.caller])
    requires a.linkOk && e.txSent
    ensures b.txOn && SentAt(b.table, a.waiting[e.caller].cell, a.waiting[e.caller].beam)
  {
    hide RowInv, Waited;
    var cfg := a.waiting[e.caller];
    assert SentAt(b.table, cfg.cell, cfg.beam);
  }

  /** After the last sent beam, or its cell, has been deleted, transmission is off. */
  lemma DeletedTurnsOff(a: Moment, e: Event, b: Moment)
    requires StepOf(a, e, b) && CommandsGoOut(e) && a.linkOk && !AnySent(b.table)
    requires || (e.FreqRequest? && e.caller !in a.waiting && e.freq.flag == FREQ_DELETE
                  && Beam(a.table, e.freq.cell, e.freq.beam).Some?)
             || (e.CellRequest? && e.cell.flag == CELL_DELETE && CellOf(a.table, e.cell.id).Some?)
    ensures !b.txOn
  {
    hide RowInv;
    if e.FreqRequest? {
      NoCellNoBeams(a.table, e.freq.cell, e.freq.beam);
    }
  }

  /** The same configuration sent once more, in business or spectrum mode, to a beam that is marked sent. */
  predicate Resends(m: Moment, e: Event)
    requires Shaped(m.table)
  {
    && e.FreqRequest? && e.caller !in m.waiting && e.freq.flag == 0 && e.mode in {Some(0), Some(1)}
    && SentAt(m.table, e.freq.cell, e.freq.beam)
    && Beam(m.table, e.freq.cell, e.freq.beam).value.triple == e.freq.triple
  }

  lemma ResendTurnsOn(a: Moment, e: Event, b: Moment)
    requires StepOf(a, e, b) && Resends(a, e) && a.linkOk && e.txSent
    ensures b.txOn && SentAt(b.table, e.freq.cell, e.freq.beam)
  {
    hide RowInv, TableInv, FreqStored;
    ResendMarks(a, e, b);
    hide StepOf;
    SkippedTurnsOn(a, e, b);
  }

  lemma ResendMarks(a: Moment, e: Event, b: Moment)
    requires StepOf(a, e, b) && Resends(a, e)
    ensures SentAt(b.table, e.freq.cell, e.freq.beam)
  {
    hide RowInv;
    NoCellNoBeams(a.table, e.freq.cell, e.freq.beam);
    assert Duplicate(a.table, e.freq.cell, e.freq.triple);
  }

  /**
    Recovery: in any run with a loss of the link, its return, and later, with no further loss, a
    configuration sent once more whose beam is still marked sent, the loss stops transmission and the
    configuration starts it again, as long as the two commands go out.
   */
  lemma Recovers(trace: seq<Moment>, events: seq<Event>, lost: nat, back: nat, again: nat)
    requires IsRun(trace, events) && lost < back < again < |events|
    requires events[lost].Link? && !events[lost].up && events[lost].sent
    requires events[back].Link? && events[back].up
    requires forall k :: back < k < again ==> !(events[k].Link? && !events[k].up)
    requires Resends(trace[again], events[again]) && events[again].txSent
    ensures !trace[lost + 1].txOn && trace[again + 1].txOn
  {
    hide TableInv, RowInv, Resends;
    assert StepOf(trace[lost], events[lost], trace[lost + 1]);
    LinkStaysUp(trace, events, back, again);
    ResendTurnsOn(trace[again], events[again], trace[again + 1]);
  }

  lemma {:induction false} LinkStaysUp(trace: seq<Moment>, events: seq<Event>, back: nat, n: nat)
    requires IsRun(trace, events) && back < n <= |events|
    requires events[back].Link? && events[back].up
    requires forall k :: back < k < n ==> !(events[k].Link? && !events[k].up)
    ensures trace[n].linkOk
  {
    hide TableInv, RowInv;
    assert StepOf(trace[n - 1], events[n - 1], trace[n]);
    if n > back + 1 {
      LinkStaysUp(trace, events, back, n - 1);
    }
  }

  /** Which beams a step of any kind can touch: its own, or those of a cell that is deleted. */
  lemma OtherBeamsStay(a: Moment, e: Event, b: Moment, id: u32, beam: byte)
    requires StepOf(a, e, b)
    requires match e
             case CellRequest(cfg, _) => cfg.flag != CELL_DELETE || id != cfg.id
             case FreqRequest(caller, cfg, _, _, _) => (id, beam) != (cfg.cell, cfg.beam)
             case WaitOver(caller, _, _) =>
               caller in a.waiting ==> (id, beam) != (a.waiting[caller].cell, a.waiting[caller].beam)
             case Link(_, _) => true
    ensures Beam(b.table, id, beam) == Beam(a.table, id, beam)
  {
    hide RowInv;
    NoCellNoBeams(a.table, id, beam);
    match e
    case CellRequest(cfg, _) =>
      var ok :| CellChange(a.table, b.table, cfg, ok);
      if id != cfg.id {
        assert CellOf(b.table, id) == CellOf(a.table, id);
      }
    case _ =>
  }

  /** ... and which cells: only the one it names. */
  lemma OtherCellsStay(a: Moment, e: Event, b: Moment, id: u32)
    requires StepOf(a, e, b)
    requires match e
             case CellRequest(cfg, _) => id != cfg.id
             case FreqRequest(_, cfg, _, _, _) => id != cfg.cell
             case WaitOver(caller, _, _) => caller in a.waiting ==> id != a.waiting[caller].cell
             case Link(_, _) => true
    ensures CellOf(b.table, id) == CellOf(a.table, id)
  {
    hide RowInv;
    match e
    case CellRequest(cfg, _) =>
      var ok :| CellChange(a.table, b.table, cfg, ok);
    case _ =>
  }

  /** A delete makes its beam, or all beams of its cell, unknown. */
  lemma DeletedIsGone(a: Moment, e: Event, b: Moment, id: u32, beam: byte)
    requires StepOf(a, e, b)
    requires || (e.CellRequest? && e.cell.flag == CELL_DELETE && id == e.cell.id)
             || (e.FreqRequest? && e.caller !in a.waiting && e.freq.flag == FREQ_DELETE
                  && id == e.freq.cell && beam == e.freq.beam)
    ensures Beam(b.table, id, beam) == None
  {
    hide RowInv;
    NoCellNoBeams(a.table, id, beam);
    NoCellNoBeams(b.table, id, beam);
  }

  /** What a wait comes to, by what the antenna was seen to do in fifty polls of a tenth of a second. */
  lemma WaitOutcomes(poll: Reads)
    ensures poll(0).None? ==> Waited(poll) == WaitError
    ensures poll(0).Some? && poll(0) !in {Some(0), Some(1)} ==> Waited(poll) == WaitSuccess
    // never seen in another mode
    ensures poll(0).Some? && (forall k: nat :: 1 <= k <= 50 ==> poll(k) in {None, poll(0)}) ==>
              Waited(poll) == WaitSuccess
    // seen in another mode, and back in time
    ensures poll(0).Some? && (exists c: nat, r: nat :: 1 <= c <= 50 && c < r <= 51 && Cycles(poll, c, r)) ==>
              Waited(poll) == WaitSuccess
    // seen in another mode, and never back
    ensures poll(0) in {Some(0), Some(1)} && (exists c: nat :: 1 <= c <= 50 && ShowsOther(poll, c))
              && (forall k: nat :: 1 <= k <= 51 ==> poll(k) != poll(0)) ==>
              Waited(poll) == WaitTimeout
  {
    if c: nat :| 1 <= c <= 50 && ShowsOther(poll, c) {
      var first := FirstOther(poll, c);
      if forall k: nat :: 1 <= k <= 51 ==> poll(k) != poll(0) {
        assert LeftForGood(poll, first);
      }
    }
    if c: nat, r: nat :| 1 <= c <= 50 && c < r <= 51 && Cycles(poll, c, r) {
      forall x: nat ensures !LeftForGood(poll, x) {
        if 1 <= x <= MAX_POLLS && ShowsOther(poll, x) && x > c {
          assert ShowsOther(poll, c);
        }
      }
    }
  }

  /** Read `c` shows another mode and read `r` the initial one. */
  predicate Cycles(poll: Reads, c: nat, r: nat) {
    poll(c).Some? && poll(c) != poll(0) && poll(r) == poll(0)
  }

  lemma {:induction false} FirstOther(poll: Reads, c: nat) returns (first: nat)
    requires 1 <= c && ShowsOther(poll, c)
    ensures 1 <= first <= c && ShowsOther(poll, first) && forall k: nat :: 1 <= k < first ==> !ShowsOther(poll, k)
    decreases c
  {
    if k: nat :| 1 <= k < c && ShowsOther(poll, k) {
      first := FirstOther(poll, k);
    } else {
      first := c;
    }
  }

  /** A configuration that is new to its cell is sent, waited for and then marked; transmission starts. */
  lemma NewFrequency(trace: seq<Moment>, events: seq<Event>)
    requires IsRun(trace, events) && |events| == 2 && events[0].FreqRequest? && events[1].WaitOver?
    requires var e, m := events[0], trace[0];
             && e.caller !in m.waiting && e.freq.flag == 0 && e.mode in {Some(0), Some(1)} && e.bandSent
             && CellOf(m.table, e.freq.cell).Some? && !Duplicate(m.table, e.freq.cell, e.freq.triple)
             && (Beam(m.table, e.freq.cell, e.freq.beam).Some? || CellOf(m.table, e.freq.cell).value.freqCount < 16)
             && events[1].caller == e.caller && m.linkOk && events[1].txSent
             && Waited(events[1].poll) == WaitSuccess
    ensures trace[1].waiting == trace[0].waiting[events[0].caller := events[0].freq]
    ensures !SentAt(trace[1].table, events[0].freq.cell, events[0].freq.beam)
    ensures trace[2].txOn && SentAt(trace[2].table, events[0].freq.cell, events[0].freq.beam)
  {
    hide RowInv, TableInv, Duplicate, Waited;
    var e, cfg := events[0], events[0].freq;
    assert StepOf(trace[0], e, trace[1]) && StepOf(trace[1], events[1], trace[2]);
    assert IsThere(trace[1].table, cfg);
    WaitedTurnsOn(trace[1], events[1], trace[2]);
  }
}
