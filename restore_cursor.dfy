/**
 * `sim_t::reg_info_mem`: a cursor over one 4096-byte guest page that the
 * checkpoint path fills with restore code.  Bytes 0..2799 hold 700 32-bit
 * instruction slots and bytes 2800..4095 hold 162 64-bit data slots; two
 * indices say where the next instruction and the next datum go.
 */
module RestoreCursor {

  import opened Encoding

  /** `inst_page_len`: bytes reserved for instructions at the start of the page. */
  const INST_PAGE_LEN: nat := 2800
  /** `inst_end`: the number of 4-byte instruction slots. */
  const INST_END: nat := INST_PAGE_LEN / 4
  /** `data_end`: the number of 8-byte data slots in the rest of the page. */
  const DATA_END: nat := (PAGE_SIZE - INST_PAGE_LEN) / 8

  /** Byte offset of instruction slot `k` in the page. */
  function InstSlotOffset(k: nat): nat {
    4 * k
  }

  /** Byte offset of data slot `j`: `&data_page[j] - &inst_page[0]`. */
  function DataSlotOffset(j: int): int {
    INST_PAGE_LEN + 8 * j
  }

  /** The instruction region read as 32-bit slots (the host is little-endian). */
  function InstSlots(s: seq<byte>): (slots: seq<nat>)
    requires |s| == PAGE_SIZE
    ensures |slots| == INST_END
  {
    Pack(s[..INST_PAGE_LEN], 4, INST_END)
  }

  /** The data region read as 64-bit slots. */
  function DataSlots(s: seq<byte>): (slots: seq<nat>)
    requires |s| == PAGE_SIZE
    ensures |slots| == DATA_END
  {
    Pack(s[INST_PAGE_LEN..], 8, DATA_END)
  }

  /** 700 instruction slots and 162 data slots, side by side, exactly fill the page. */
  lemma RegionSizes()
    ensures INST_END == 700 && DATA_END == 162
    ensures InstSlotOffset(INST_END) == INST_PAGE_LEN == DataSlotOffset(0)
    ensures DataSlotOffset(DATA_END) == PAGE_SIZE
  {
  }

  /** Every instruction slot lies before every data slot, and both lie inside the page. */
  lemma SlotsDisjoint(k: nat, j: nat)
    requires k < INST_END && j < DATA_END
    ensures InstSlotOffset(k) + 4 <= INST_PAGE_LEN <= DataSlotOffset(j)
    ensures DataSlotOffset(j) + 8 <= PAGE_SIZE
  {
  }

  /** The two slot views lose nothing: written back out they give the whole page. */
  lemma SlotsCoverPage(s: seq<byte>)
    requires |s| == PAGE_SIZE
    ensures Unpack(InstSlots(s), 4) + Unpack(DataSlots(s), 8) == s
  {
    UnpackPack(s[..INST_PAGE_LEN], 4, INST_END);
    UnpackPack(s[INST_PAGE_LEN..], 8, DATA_END);
    assert s == s[..INST_PAGE_LEN] + s[INST_PAGE_LEN..];
  }

  /** Storing an instruction in slot `k` sets that slot and leaves every other slot of both regions alone. */
  lemma InstWriteEffect(s: seq<byte>, k: nat, inst: u32)
    requires |s| == PAGE_SIZE && k < INST_END
    ensures InstSlots(Splice(s, InstSlotOffset(k), ToLE(inst, 4))) == InstSlots(s)[k := inst]
    ensures DataSlots(Splice(s, InstSlotOffset(k), ToLE(inst, 4))) == DataSlots(s)
  {
    var b := ToLE(inst, 4);
    var t := Splice(s, 4 * k, b);
    WordBounds();
    assert t[..INST_PAGE_LEN] == Splice(s[..INST_PAGE_LEN], 4 * k, b);
    assert t[INST_PAGE_LEN..] == s[INST_PAGE_LEN..];
    PackAfterStore(s[..INST_PAGE_LEN], 4, INST_END, k, inst);
  }

  /** Storing a datum in slot `j` sets that slot and leaves every other slot of both regions alone. */
  lemma DataWriteEffect(s: seq<byte>, j: nat, data: u64)
    requires |s| == PAGE_SIZE && j < DATA_END
    ensures DataSlots(Splice(s, DataSlotOffset(j), ToLE(data, 8))) == DataSlots(s)[j := data]
    ensures InstSlots(Splice(s, DataSlotOffset(j), ToLE(data, 8))) == InstSlots(s)
  {
    var b := ToLE(data, 8);
    var t := Splice(s, DataSlotOffset(j), b);
    WordBounds();
    SpliceBeyond(s, INST_PAGE_LEN, DataSlotOffset(j), b);
    assert t[..INST_PAGE_LEN] == s[..INST_PAGE_LEN];
    PackAfterStore(s[INST_PAGE_LEN..], 8, DATA_END, j, data);
  }

  class RegInfoMem {
    /** The page buffer (`p->second`), shared with the page list. */
    const page: array<byte>
    /** The page's absolute address: its offset plus `mem_base`, in `uint64_t`. */
    const base: u64
    var instIndex: int
    var dataIndex: int

    /** The buffer is one page and both indices are within their regions. */
    predicate Valid()
      reads this
    {
      page.Length == PAGE_SIZE && 0 <= instIndex <= INST_END && 0 <= dataIndex <= DATA_END
    }

    /** `reg_info_mem(p)`: a cursor at the start of the page at `offset` whose buffer is `buffer`. */
    constructor(offset: u64, buffer: array<byte>, memBase: u64)
      requires buffer.Length == PAGE_SIZE
      ensures Valid() && page == buffer
      ensures base == (offset + memBase) % TWO_64
      ensures instIndex == 0 && dataIndex == 0
      ensures InstRemain() == INST_END && DataRemain() == DATA_END
    {
      page := buffer;
      instIndex := 0;
      dataIndex := 0;
      base := (offset + memBase) % TWO_64;
    }

    /** `inst_remain()`: instruction slots still free; with the index it always makes 700. */
    function InstRemain(): (r: int)
      reads this
      ensures instIndex + r == INST_END
      ensures Valid() ==> 0 <= r <= INST_END
    {
      INST_END - instIndex
    }

    /** `data_remain()`: data slots still free; with the index it always makes 162. */
    function DataRemain(): (r: int)
      reads this
      ensures dataIndex + r == DATA_END
      ensures Valid() ==> 0 <= r <= DATA_END
    {
      DATA_END - dataIndex
    }

    /** `write_inst`: stores `inst` in the next instruction slot and moves past it. */
    method WriteInst(inst: u32)
      requires Valid() && InstRemain() > 0
      modifies this, page
      ensures Valid()
      ensures page[..] == Splice(old(page[..]), InstSlotOffset(old(instIndex)), ToLE(inst, 4))
      ensures InstSlots(page[..]) == InstSlots(old(page[..]))[old(instIndex) := inst]
      ensures DataSlots(page[..]) == DataSlots(old(page[..]))
      ensures instIndex == old(instIndex) + 1 && dataIndex == old(dataIndex)
    {
      var off := InstSlotOffset(instIndex);
      var b := ToLE(inst, 4);
      forall k | 0 <= k < 4 {
        page[off + k] := b[k];
      }
      assert page[..] == Splice(old(page[..]), off, b);
      InstWriteEffect(old(page[..]), instIndex, inst);
      instIndex := instIndex + 1;
    }

    /** `write_data`: stores `data` in the next data slot and moves past it. */
    method WriteData(data: u64)
      requires Valid() && DataRemain() > 0
      modifies this, page
      ensures Valid()
      ensures page[..] == Splice(old(page[..]), DataSlotOffset(old(dataIndex)), ToLE(data, 8))
      ensures DataSlots(page[..]) == DataSlots(old(page[..]))[old(dataIndex) := data]
      ensures InstSlots(page[..]) == InstSlots(old(page[..]))
      ensures dataIndex == old(dataIndex) + 1 && instIndex == old(instIndex)
    {
      var off := DataSlotOffset(dataIndex);
      var b := ToLE(data, 8);
      forall k | 0 <= k < 8 {
        page[off + k] := b[k];
      }
      assert page[..] == Splice(old(page[..]), off, b);
      DataWriteEffect(old(page[..]), dataIndex, data);
      dataIndex := dataIndex + 1;
    }

    /**
     * `get_data_addr()`: the absolute address of the next data slot, that is
     * the slot `WriteData` fills next, computed in `uint64_t`.
     */
    function GetDataAddr(): (a: u64)
      reads this
      ensures a == (base + DataSlotOffset(dataIndex)) % TWO_64
      ensures Valid() && DataRemain() > 0 && base + PAGE_SIZE <= TWO_64 ==>
        base + INST_PAGE_LEN <= a < base + PAGE_SIZE && (a - base - INST_PAGE_LEN) % 8 == 0
    {
      (DataSlotOffset(dataIndex) + base) % TWO_64
    }
  }
}
