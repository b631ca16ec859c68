/**
 * The sparse memory-image dump of `sim_t::dump_memlist`.
 *
 * Each guest page is written as 512 lines of 16 lower-case hex digits, one
 * little-endian 64-bit word per line. An address line `@` + 16 hex digits,
 * holding the page's WORD address (byte offset / 8), is written before a
 * page that does not directly follow the page written before it. This is
 * the `$readmemh` text format of IEEE 1364-2005, section 17.2.9, which is
 * modelled here by a reader (`ReadMemH`) so that the dump can be read back.
 */
module MemImage {
  import opened Encoding

  /** One guest page as the page list holds it: its offset and its buffer. */
  datatype Page = Page(offset: u64, bytes: seq<byte>)

  /** Every buffer in the page list is one full page. */
  predicate ValidPages(pages: seq<Page>) {
    forall k :: 0 <= k < |pages| ==> |pages[k].bytes| == PAGE_SIZE
  }

  const WORDS_PER_PAGE: nat := PAGE_SIZE / 8

  // ---------------------------------------------------------------------
  // The lines of one page

  /** Word `i` of a page: bytes `8i .. 8i+7`, byte `8i` least significant. */
  function Word(bytes: seq<byte>, i: nat): u64
    requires 8 * i + 8 <= |bytes|
  {
    WordBounds();
    LE(bytes[8 * i .. 8 * i + 8])
  }

  function PageWords(bytes: seq<byte>): (ws: seq<u64>)
    requires |bytes| == PAGE_SIZE
  {
    seq(WORDS_PER_PAGE, i requires 0 <= i < WORDS_PER_PAGE => Word(bytes, i))
  }

  /** One 16-digit hex line per word. */
  function HexLines(ws: seq<u64>): (lines: seq<string>) {
    seq(|ws|, i requires 0 <= i < |ws| => Hex16(ws[i]))
  }

  /** The 512 data lines a page is dumped as. */
  function DataLines(bytes: seq<byte>): seq<string>
    requires |bytes| == PAGE_SIZE
  {
    HexLines(PageWords(bytes))
  }

  /** The address line written before a page: its word address, not its byte address. */
  function MarkerLine(offset: u64): string {
    "@" + Hex16(offset / 8)
  }

  /** A data line: exactly 16 lower-case hex digits. */
  predicate IsDataLine(line: string) {
    |line| == 16 && IsHex(line)
  }

  /** An address line: `@` followed by exactly 16 lower-case hex digits. */
  predicate IsMarkerLine(line: string) {
    |line| == 17 && line[0] == '@' && IsHex(line[1..])
  }

  // ---------------------------------------------------------------------
  // Whole images

  /** The lines for one page: its address line when `marker` holds, then its data lines. */
  function Block(p: Page, marker: bool): seq<string>
    requires |p.bytes| == PAGE_SIZE
  {
    (if marker then [MarkerLine(p.offset)] else []) + DataLines(p.bytes)
  }

  function CountMarkers(markers: seq<bool>): nat {
    if markers == [] then 0
    else CountMarkers(markers[..|markers| - 1]) + (if markers[|markers| - 1] then 1 else 0)
  }

  /**
   * The image of the pages in list order, page `k` preceded by an address
   * line exactly when `markers[k]` holds.
   */
  function Emit(pages: seq<Page>, markers: seq<bool>): seq<string>
    requires ValidPages(pages) && |markers| == |pages|
    decreases |pages|
  {
    if pages == [] then []
    else
      var n := |pages| - 1;
      Emit(pages[..n], markers[..n]) + Block(pages[n], markers[n])
  }

  /** An image has 512 data lines per page plus one line per address line. */
  lemma {:induction false} EmitLength(pages: seq<Page>, markers: seq<bool>)
    requires ValidPages(pages) && |markers| == |pages|
    ensures |Emit(pages, markers)| == 512 * |pages| + CountMarkers(markers)
    decreases |pages|
  {
    if pages != [] {
      var n := |pages| - 1;
      EmitLength(pages[..n], markers[..n]);
    }
  }

  /** Every line of an image is a 16-digit data line or an `@` address line. */
  lemma {:induction false} EmitLineFormat(pages: seq<Page>, markers: seq<bool>)
    requires ValidPages(pages) && |markers| == |pages|
    ensures forall line :: line in Emit(pages, markers) ==> IsDataLine(line) || IsMarkerLine(line)
    decreases |pages|
  {
    if pages != [] {
      var n := |pages| - 1;
      EmitLineFormat(pages[..n], markers[..n]);
      forall line | line in Block(pages[n], markers[n])
        ensures IsDataLine(line) || IsMarkerLine(line)
      {
        if line !in DataLines(pages[n].bytes) {
          assert line == MarkerLine(pages[n].offset);
          assert line[1..] == Hex16(pages[n].offset / 8);
        }
      }
    }
  }

  // ---------------------------------------------------------------------
  // The address-line test as the source writes it

  /** `int last_page = p->first`: the low 32 bits of `x` read as a signed 32-bit value. */
  function Int32Of(x: int): int {
    var t := x % TWO_32;
    if t < 0x8000_0000 then t else t - TWO_32
  }

  /** The value kept is the one signed 32-bit value congruent to the offset modulo 2^32. */
  lemma Int32OfRange(x: int)
    ensures -0x8000_0000 <= Int32Of(x) < 0x8000_0000 && (x - Int32Of(x)) % TWO_32 == 0
    ensures 0 <= x < 0x8000_0000 ==> Int32Of(x) == x
  {
  }

  /** Conversion to `uint64_t`: the value modulo 2^64. */
  function U64Of(x: int): u64 {
    x % TWO_64
  }

  /** `last_page` when page `k` is reached: 0 at first, then the previous offset cut to an `int`. */
  function LastPage(pages: seq<Page>, k: nat): int
    requires k <= |pages|
  {
    if k == 0 then 0 else Int32Of(pages[k - 1].offset)
  }

  /** `p->first-4096 != last_page`, evaluated in `uint64_t`. */
  predicate MarkerAsWritten(pages: seq<Page>, k: nat)
    requires k < |pages|
  {
    U64Of(pages[k].offset - PAGE_SIZE) != U64Of(LastPage(pages, k))
  }

  function MarkersAsWritten(pages: seq<Page>): (m: seq<bool>)
    ensures |m| == |pages|
  {
    seq(|pages|, k requires 0 <= k < |pages| => MarkerAsWritten(pages, k))
  }

  /** The image as `dump_memlist` writes it. */
  function Image(pages: seq<Page>): seq<string>
    requires ValidPages(pages)
  {
    Emit(pages, MarkersAsWritten(pages))
  }

  /** The address-line test as evidently intended: always for the first page, then whenever a page does not follow on. */
  function MarkersIntended(pages: seq<Page>): (m: seq<bool>)
    ensures |m| == |pages|
  {
    seq(|pages|, k requires 0 <= k < |pages| =>
      k == 0 || pages[k].offset != pages[k - 1].offset + PAGE_SIZE)
  }

  // ---------------------------------------------------------------------
  // The dump itself

  /** `sim_t::dump_memlist`: the lines written to `mem_file`. */
  method DumpMemlist(pages: seq<Page>) returns (memFile: seq<string>)
    requires ValidPages(pages)
    ensures memFile == Image(pages)
  {
    ghost var markers := MarkersAsWritten(pages);
    memFile := [];
    var lastPage: int := 0;
    var k := 0;
    while k < |pages|
      invariant 0 <= k <= |pages|
      invariant lastPage == LastPage(pages, k)
      invariant memFile == Emit(pages[..k], markers[..k])
    {
      var block, last := DumpEntry(pages, k, lastPage);
      memFile := memFile + block;
      lastPage := last;
      EmitSnoc(pages, markers, k);
      k := k + 1;
    }
    assert pages[..k] == pages && markers[..k] == markers;
  }

  /** The address-line test of page `k`, in terms of the running `last_page`. */
  lemma MarkerStep(pages: seq<Page>, k: nat)
    requires k < |pages|
    ensures MarkersAsWritten(pages)[k] == (U64Of(pages[k].offset - PAGE_SIZE) != U64Of(LastPage(pages, k)))
    ensures LastPage(pages, k + 1) == Int32Of(pages[k].offset)
  {
  }

  /** One more page of the list adds its block to the image. */
  lemma EmitSnoc(pages: seq<Page>, markers: seq<bool>, k: nat)
    requires ValidPages(pages) && |markers| == |pages| && k < |pages|
    ensures Emit(pages[..k + 1], markers[..k + 1]) == Emit(pages[..k], markers[..k]) + Block(pages[k], markers[k])
  {
    assert pages[..k + 1][..k] == pages[..k] && markers[..k + 1][..k] == markers[..k];
  }

  /**
   * Lines 6-18 of `dump_memlist` for page `k`: the address line if the test
   * fires, then the data lines; `last_page` moves on to this page.
   */
  method DumpEntry(pages: seq<Page>, k: nat, lastPage: int) returns (block: seq<string>, last: int)
    requires ValidPages(pages) && k < |pages| && lastPage == LastPage(pages, k)
    ensures block == Block(pages[k], MarkersAsWritten(pages)[k])
    ensures last == LastPage(pages, k + 1)
  {
    var p := pages[k];
    MarkerStep(pages, k);
    var marked := U64Of(p.offset - PAGE_SIZE) != U64Of(lastPage);
    last := Int32Of(p.offset);
    block := DumpBlock(p, marked);
  }

  /** Lines 6-18 of `dump_memlist` for one page: the address line if `marked`, then the data lines. */
  method DumpBlock(p: Page, marked: bool) returns (block: seq<string>)
    requires |p.bytes| == PAGE_SIZE
    ensures block == Block(p, marked)
  {
    var lines := DumpPage(p.bytes);
    block := (if marked then [MarkerLine(p.offset)] else []) + lines;
  }

  /** The inner loops of `dump_memlist` (lines 10-18): one page's data lines. */
  method DumpPage(bytes: seq<byte>) returns (lines: seq<string>)
    requires |bytes| == PAGE_SIZE
    ensures lines == DataLines(bytes)
  {
    lines := [];
    var i := 0;
    ghost var n := 0;
    while i < PAGE_SIZE
      invariant 0 <= n <= WORDS_PER_PAGE && i == 8 * n
      invariant |lines| == n
      invariant forall j :: 0 <= j < n ==> lines[j] == Hex16(Word(bytes, j))
    {
      var data := ReadWord(bytes[i .. i + 8]);
      assert data == Word(bytes, n);
      lines := lines + [Hex16(data)];
      i, n := i + 8, n + 1;
    }
    DataLinesAt(bytes, lines);
  }

  /** Lines holding the hex of each of a page's words, in order, are its data lines. */
  lemma DataLinesAt(bytes: seq<byte>, lines: seq<string>)
    requires |bytes| == PAGE_SIZE && |lines| == WORDS_PER_PAGE
    requires forall j :: 0 <= j < WORDS_PER_PAGE ==> lines[j] == Hex16(Word(bytes, j))
    ensures lines == DataLines(bytes)
  {
  }

  /** Lines 11-16 of `dump_memlist`: the eight bytes at `c`, most significant first, shifted into `data`. */
  method ReadWord(c: seq<byte>) returns (data: u64)
    requires |c| == 8
    ensures data == LE(c)
  {
    data := 0;
    var j := 7;
    while j >= 0
      invariant -1 <= j <= 7
      invariant data == LE(c[j + 1 ..])
    {
      // `data <<= 8` never wraps: at most seven bytes are in `data` here
      Pow256Monotone(7 - j, 7);
      WordBounds();
      assert c[j..][1..] == c[j + 1 ..];
      data := data * 256 + c[j];
      j := j - 1;
    }
  }

  lemma {:induction false} Pow256Monotone(a: nat, b: nat)
    requires a <= b
    ensures Pow256(a) <= Pow256(b)
    decreases b
  {
    if a < b {
      Pow256Monotone(a, b - 1);
    }
  }

  // ---------------------------------------------------------------------
  // Reading an image back: `$readmemh`

  /** The reader's state: the next word address and the words loaded so far. */
  datatype LoadState = LoadState(addr: int, mem: map<int, nat>)

  /** One line: an address line moves the address, a data line stores a word and advances it. */
  function LoadLine(st: LoadState, line: string): Option<LoadState> {
    if |line| > 0 && line[0] == '@' && IsHex(line[1..]) then
      Some(LoadState(ParseHex(line[1..]), st.mem))
    else if |line| > 0 && IsHex(line) then
      Some(LoadState(st.addr + 1, st.mem[st.addr := ParseHex(line)]))
    else
      None
  }

  function LoadLines(st: LoadState, lines: seq<string>): Option<LoadState>
    decreases |lines|
  {
    if lines == [] then Some(st)
    else match LoadLine(st, lines[0])
      case None => None
      case Some(next) => LoadLines(next, lines[1..])
  }

  /** The memory `$readmemh` loads from the lines, starting at word address 0. */
  function ReadMemH(lines: seq<string>): Option<map<int, nat>> {
    match LoadLines(LoadState(0, map[]), lines)
    case None => None
    case Some(st) => Some(st.mem)
  }

  /** `mem` with `ws` stored at consecutive word addresses from `base`, as data lines store them. */
  function StoreWords(mem: map<int, nat>, base: int, ws: seq<u64>): map<int, nat>
    decreases |ws|
  {
    if ws == [] then mem else StoreWords(mem[base := ws[0]], base + 1, ws[1..])
  }

  /** Storing words defines exactly the addresses `base .. base+|ws|-1`, word `i` at `base + i`. */
  lemma {:induction false} StoreWordsAt(mem: map<int, nat>, base: int, ws: seq<u64>, a: int)
    ensures a in StoreWords(mem, base, ws) <==> a in mem || base <= a < base + |ws|
    ensures base <= a < base + |ws| ==> StoreWords(mem, base, ws)[a] == ws[a - base]
    ensures !(base <= a < base + |ws|) && a in mem ==> StoreWords(mem, base, ws)[a] == mem[a]
    decreases |ws|
  {
    if ws != [] {
      StoreWordsAt(mem[base := ws[0]], base + 1, ws[1..], a);
    }
  }

  /** The memory that holds each page's words at the given word addresses, later pages winning. */
  function Layout(pages: seq<Page>, at: seq<int>): map<int, nat>
    requires ValidPages(pages) && |at| == |pages|
    decreases |pages|
  {
    if pages == [] then map[]
    else
      var n := |pages| - 1;
      StoreWords(Layout(pages[..n], at[..n]), at[n], PageWords(pages[n].bytes))
  }

  /** The word address of each page: its offset / 8. */
  function WordAddresses(pages: seq<Page>): (at: seq<int>)
    ensures |at| == |pages|
  {
    seq(|pages|, k requires 0 <= k < |pages| => pages[k].offset / 8)
  }

  /** The guest memory the page list describes, in 64-bit words. */
  function MemOf(pages: seq<Page>): map<int, nat>
    requires ValidPages(pages)
  {
    Layout(pages, WordAddresses(pages))
  }

  /** Where the reader puts the line after the last data line of `at`'s pages. */
  function NextAddress(at: seq<int>): int {
    if at == [] then 0 else at[|at| - 1] + WORDS_PER_PAGE
  }

  /** The word address at which each page's data lands when the image is read back. */
  function Placements(pages: seq<Page>, markers: seq<bool>): (at: seq<int>)
    requires |markers| == |pages|
    ensures |at| == |pages|
    decreases |pages|
  {
    if pages == [] then []
    else
      var n := |pages| - 1;
      var before := Placements(pages[..n], markers[..n]);
      before + [if markers[n] then pages[n].offset / 8 else NextAddress(before)]
  }

  /** Appending lines: the reader continues from the state the first part left. */
  lemma {:induction false} LoadAppend(st: LoadState, a: seq<string>, b: seq<string>)
    ensures LoadLines(st, a + b) ==
      match LoadLines(st, a)
      case None => None
      case Some(mid) => LoadLines(mid, b)
    decreases |a|
  {
    if a == [] {
      assert a + b == b;
    } else {
      assert (a + b)[0] == a[0] && (a + b)[1..] == a[1..] + b;
      match LoadLine(st, a[0])
      case None =>
      case Some(next) =>
        LoadAppend(next, a[1..], b);
        assert LoadLines(st, a + b) == LoadLines(next, a[1..] + b);
        assert LoadLines(st, a) == LoadLines(next, a[1..]);
    }
  }

  /** Data lines store their words at consecutive addresses from the current one. */
  lemma {:induction false} LoadData(st: LoadState, ws: seq<u64>)
    ensures LoadLines(st, HexLines(ws)) == Some(LoadState(st.addr + |ws|, StoreWords(st.mem, st.addr, ws)))
    decreases |ws|
  {
    if ws != [] {
      var lines := HexLines(ws);
      assert lines[1..] == HexLines(ws[1..]);
      var line := lines[0];
      assert line == Hex16(ws[0]);
      Hex16Parses(ws[0]);
      assert IsHexDigit(line[0]);
      var next := LoadState(st.addr + 1, st.mem[st.addr := ws[0]]);
      assert LoadLine(st, line) == Some(next);
      LoadData(next, ws[1..]);
    }
  }

  /** An address line sets the address to the page's word address. */
  lemma LoadMarker(st: LoadState, offset: u64)
    ensures LoadLine(st, MarkerLine(offset)) == Some(LoadState(offset / 8, st.mem))
  {
    var line := MarkerLine(offset);
    assert line[1..] == Hex16(offset / 8);
    Hex16Parses(offset / 8);
  }

  /** One page's lines store its words from its own word address, or from the current address when unmarked. */
  lemma LoadBlock(st: LoadState, p: Page, marker: bool, a: int)
    requires |p.bytes| == PAGE_SIZE
    requires a == if marker then p.offset / 8 else st.addr
    ensures LoadLines(st, Block(p, marker)) ==
      Some(LoadState(a + WORDS_PER_PAGE, StoreWords(st.mem, a, PageWords(p.bytes))))
  {
    if marker {
      LoadMarkedBlock(st, p, marker, a);
    } else {
      LoadUnmarkedBlock(st, p, marker, a);
    }
  }

  /** A marked page: the address line, then the data lines from the page's word address. */
  lemma LoadMarkedBlock(st: LoadState, p: Page, marker: bool, a: int)
    requires |p.bytes| == PAGE_SIZE && marker && a == p.offset / 8
    ensures LoadLines(st, Block(p, marker)) ==
      Some(LoadState(a + WORDS_PER_PAGE, StoreWords(st.mem, a, PageWords(p.bytes))))
  {
    var line := MarkerLine(p.offset);
    var data := DataLines(p.bytes);
    var st' := LoadState(a, st.mem);
    assert Block(p, marker) == [line] + data;
    LoadAppend(st, [line], data);
    LoadMarker(st, p.offset);
    LoadOne(st, line);
    LoadData(st', PageWords(p.bytes));
  }

  /** An unmarked page: its data lines from the current address. */
  lemma LoadUnmarkedBlock(st: LoadState, p: Page, marker: bool, a: int)
    requires |p.bytes| == PAGE_SIZE && !marker && a == st.addr
    ensures LoadLines(st, Block(p, marker)) ==
      Some(LoadState(a + WORDS_PER_PAGE, StoreWords(st.mem, a, PageWords(p.bytes))))
  {
    assert Block(p, marker) == DataLines(p.bytes);
    LoadData(st, PageWords(p.bytes));
  }

  /** Reading a single line. */
  lemma LoadOne(st: LoadState, line: string)
    ensures LoadLines(st, [line]) == LoadLine(st, line)
  {
    assert [line][1..] == [];
  }

  /** What reading the image of `pages` back yields: each page's words at its placement. */
  predicate ReadsBack(pages: seq<Page>, markers: seq<bool>)
    requires ValidPages(pages) && |markers| == |pages|
  {
    var at := Placements(pages, markers);
    LoadLines(LoadState(0, map[]), Emit(pages, markers)) == Some(LoadState(NextAddress(at), Layout(pages, at)))
  }

  /**
   * Reading an image back places each page's words at the address its
   * address line names, or right after the previous page when it has none.
   */
  lemma {:induction false} ReadBack(pages: seq<Page>, markers: seq<bool>)
    requires ValidPages(pages) && |markers| == |pages|
    ensures ReadsBack(pages, markers)
    decreases |pages|
  {
    if pages == [] {
      assert Emit(pages, markers) == [] && Placements(pages, markers) == [];
    } else {
      var n := |pages| - 1;
      ReadBack(pages[..n], markers[..n]);
      ReadBackStep(pages, markers);
    }
  }

  /** The inductive step of `ReadBack`: one more page read after the others. */
  lemma ReadBackStep(pages: seq<Page>, markers: seq<bool>)
    requires ValidPages(pages) && |markers| == |pages| && pages != []
    requires ReadsBack(pages[..|pages| - 1], markers[..|pages| - 1])
    ensures ReadsBack(pages, markers)
  {
    var n := |pages| - 1;
    var at := Placements(pages, markers);
    var before := Placements(pages[..n], markers[..n]);
    var mid := LoadState(NextAddress(before), Layout(pages[..n], before));
    PlacementStep(pages, markers);
    EmitLoads(pages, markers, mid, at[n]);
    ReadsBackFrom(pages, markers, LoadState(at[n] + WORDS_PER_PAGE, StoreWords(mid.mem, at[n], PageWords(pages[n].bytes))));
  }

  /** The image reads back as `ReadsBack` says once the reader is known to end in that state. */
  lemma ReadsBackFrom(pages: seq<Page>, markers: seq<bool>, last: LoadState)
    requires ValidPages(pages) && |markers| == |pages|
    requires LoadLines(LoadState(0, map[]), Emit(pages, markers)) == Some(last)
    requires last.addr == NextAddress(Placements(pages, markers)) && last.mem == Layout(pages, Placements(pages, markers))
    ensures ReadsBack(pages, markers)
  {
  }

  /** Reading the image of `pages` is reading the image of all but the last page, then the last page's block. */
  lemma EmitLoads(pages: seq<Page>, markers: seq<bool>, mid: LoadState, a: int)
    requires ValidPages(pages) && |markers| == |pages| && pages != []
    requires LoadLines(LoadState(0, map[]), Emit(pages[..|pages| - 1], markers[..|pages| - 1])) == Some(mid)
    requires a == if markers[|pages| - 1] then pages[|pages| - 1].offset / 8 else mid.addr
    ensures LoadLines(LoadState(0, map[]), Emit(pages, markers)) ==
      Some(LoadState(a + WORDS_PER_PAGE, StoreWords(mid.mem, a, PageWords(pages[|pages| - 1].bytes))))
  {
    var n := |pages| - 1;
    var init := Emit(pages[..n], markers[..n]);
    assert Emit(pages, markers) == init + Block(pages[n], markers[n]);
    LoadThenBlock(LoadState(0, map[]), init, mid, pages[n], markers[n], a);
  }

  /** Lines that leave the reader in `mid`, followed by one page's block. */
  lemma LoadThenBlock(st: LoadState, init: seq<string>, mid: LoadState, p: Page, marker: bool, a: int)
    requires LoadLines(st, init) == Some(mid) && |p.bytes| == PAGE_SIZE
    requires a == if marker then p.offset / 8 else mid.addr
    ensures LoadLines(st, init + Block(p, marker)) ==
      Some(LoadState(a + WORDS_PER_PAGE, StoreWords(mid.mem, a, PageWords(p.bytes))))
  {
    LoadAppend(st, init, Block(p, marker));
    LoadBlock(mid, p, marker, a);
  }

  /** Placing one more page: where it lands, where the reader is after it, and the memory then. */
  lemma PlacementStep(pages: seq<Page>, markers: seq<bool>)
    requires ValidPages(pages) && |markers| == |pages| && pages != []
    ensures var n := |pages| - 1;
      var before := Placements(pages[..n], markers[..n]);
      var at := Placements(pages, markers);
      at[n] == (if markers[n] then pages[n].offset / 8 else NextAddress(before)) &&
      NextAddress(at) == at[n] + WORDS_PER_PAGE &&
      Layout(pages, at) == StoreWords(Layout(pages[..n], before), at[n], PageWords(pages[n].bytes))
  {
    var n := |pages| - 1;
    var at := Placements(pages, markers);
    var before := Placements(pages[..n], markers[..n]);
    assert at == before + [at[n]];
    assert at[..n] == before;
    assert NextAddress(at) == at[|at| - 1] + WORDS_PER_PAGE;
    assert Layout(pages, at) == StoreWords(Layout(pages[..n], at[..n]), at[n], PageWords(pages[n].bytes));
  }

  // ---------------------------------------------------------------------
  // What the image means

  /** The page after the one at byte offset `x` starts 512 words later. */
  lemma NextPageAddress(x: int)
    ensures (x + PAGE_SIZE) / 8 == x / 8 + WORDS_PER_PAGE
  {
  }

  /** With the intended address lines every page lands at its own word address. */
  lemma {:induction false} IntendedPlacements(pages: seq<Page>)
    ensures Placements(pages, MarkersIntended(pages)) == WordAddresses(pages)
    decreases |pages|
  {
    if pages != [] {
      var n := |pages| - 1;
      IntendedPlacements(pages[..n]);
      IntendedPlacementStep(pages);
    }
  }

  /** The inductive step of `IntendedPlacements`: the last page lands at its own word address. */
  lemma IntendedPlacementStep(pages: seq<Page>)
    requires pages != []
    requires Placements(pages[..|pages| - 1], MarkersIntended(pages[..|pages| - 1])) == WordAddresses(pages[..|pages| - 1])
    ensures Placements(pages, MarkersIntended(pages)) == WordAddresses(pages)
  {
    var n := |pages| - 1;
    MarkersIntendedPrefix(pages, n);
    IntendedLastPlacement(pages);
    WordAddressesSnoc(pages);
  }

  /** Whether or not it gets an address line, the last page lands right after its predecessor or at its own address. */
  lemma IntendedLastPlacement(pages: seq<Page>)
    requires pages != []
    ensures var n := |pages| - 1;
      (if MarkersIntended(pages)[n] then pages[n].offset / 8 else NextAddress(WordAddresses(pages[..n]))) == pages[n].offset / 8
  {
    var n := |pages| - 1;
    if !MarkersIntended(pages)[n] {
      assert n > 0 && pages[n].offset == pages[n - 1].offset + PAGE_SIZE;
      assert pages[..n][n - 1] == pages[n - 1];
      NextPageAddress(pages[n - 1].offset);
    }
  }

  /** The intended test of a page depends only on the pages up to it. */
  lemma MarkersIntendedPrefix(pages: seq<Page>, n: nat)
    requires n <= |pages|
    ensures MarkersIntended(pages)[..n] == MarkersIntended(pages[..n])
  {
    var m := MarkersIntended(pages[..n]);
    forall i | 0 <= i < n
      ensures MarkersIntended(pages)[i] == m[i]
    {
      assert pages[..n][i] == pages[i];
      if i > 0 {
        assert pages[..n][i - 1] == pages[i - 1];
      }
    }
  }

  /** The word addresses of a list are those of all but its last page, then the last page's. */
  lemma WordAddressesSnoc(pages: seq<Page>)
    requires pages != []
    ensures WordAddresses(pages) == WordAddresses(pages[..|pages| - 1]) + [pages[|pages| - 1].offset / 8]
  {
    var n := |pages| - 1;
    var rest := WordAddresses(pages[..n]) + [pages[n].offset / 8];
    forall i | 0 <= i < |pages|
      ensures WordAddresses(pages)[i] == rest[i]
    {
      if i < n {
        assert pages[..n][i] == pages[i];
      }
    }
  }

  /** The corrected dump reads back as exactly the guest memory. */
  lemma IntendedImageReadsBack(pages: seq<Page>)
    requires ValidPages(pages)
    ensures ReadMemH(Emit(pages, MarkersIntended(pages))) == Some(MemOf(pages))
  {
    ReadBack(pages, MarkersIntended(pages));
    assert ReadsBack(pages, MarkersIntended(pages));
    IntendedPlacements(pages);
  }

  /**
   * While offsets stay below 2^31 the source's test is the intended one,
   * except that a first page at offset 4096 gets no address line; offset 0
   * gets one because `0 - 4096` wraps.
   */
  lemma AsWrittenMarkerRule(pages: seq<Page>, k: nat)
    requires k < |pages|
    requires forall j :: 0 <= j <= k ==> pages[j].offset < 0x8000_0000
    ensures MarkerAsWritten(pages, k) <==>
      if k == 0 then pages[0].offset != PAGE_SIZE
      else pages[k].offset != pages[k - 1].offset + PAGE_SIZE
  {
  }

  /**
   * Where the source's test and the intended one part: a first page gets no
   * address line exactly when it sits at offset 4096, and a later page can be
   * decided wrongly only when the page before it lies at 2^31 or above, where
   * `last_page` no longer holds that page's offset.
   */
  lemma AsWrittenMarkerDiffers(pages: seq<Page>, k: nat)
    requires k < |pages|
    ensures k == 0 ==> (MarkersAsWritten(pages)[0] != MarkersIntended(pages)[0] <==> pages[0].offset == PAGE_SIZE)
    ensures k > 0 && MarkersAsWritten(pages)[k] != MarkersIntended(pages)[k] ==> pages[k - 1].offset >= 0x8000_0000
  {
    if k > 0 && pages[k - 1].offset < 0x8000_0000 {
      assert LastPage(pages, k) == pages[k - 1].offset;
    }
  }

  /** Below 2^31, and unless the first page sits at offset 4096, the dump reads back as the guest memory. */
  lemma AsWrittenReadsBack(pages: seq<Page>)
    requires ValidPages(pages)
    requires forall j :: 0 <= j < |pages| ==> pages[j].offset < 0x8000_0000
    requires pages != [] ==> pages[0].offset != PAGE_SIZE
    ensures ReadMemH(Image(pages)) == Some(MemOf(pages))
  {
    forall k | 0 <= k < |pages|
      ensures MarkersAsWritten(pages)[k] == MarkersIntended(pages)[k]
    {
      AsWrittenMarkerRule(pages, k);
    }
    assert MarkersAsWritten(pages) == MarkersIntended(pages);
    IntendedImageReadsBack(pages);
  }

  /** The layout of a single page. */
  lemma OnePageLayout(p: Page, a: int)
    requires |p.bytes| == PAGE_SIZE
    ensures Layout([p], [a]) == StoreWords(map[], a, PageWords(p.bytes))
  {
    assert [p][..0] == [] && [a][..0] == [];
  }

  /** The layout of two pages: the second is stored over the first. */
  lemma TwoPageLayout(p: Page, q: Page, a: int, b: int)
    requires |p.bytes| == PAGE_SIZE && |q.bytes| == PAGE_SIZE
    ensures Layout([p, q], [a, b]) == StoreWords(StoreWords(map[], a, PageWords(p.bytes)), b, PageWords(q.bytes))
  {
    assert [p, q][..1] == [p] && [a, b][..1] == [a];
    OnePageLayout(p, a);
  }

  /** Counterexample: a lone page at offset 0x1000 gets no address line and is read back at word 0. */
  lemma UnmarkedFirstPageMisplaced(bytes: seq<byte>)
    requires |bytes| == PAGE_SIZE
    ensures var pages := [Page(0x1000, bytes)];
      !MarkersAsWritten(pages)[0] && ReadMemH(Image(pages)) != Some(MemOf(pages))
  {
    var pages := [Page(0x1000, bytes)];
    var markers := MarkersAsWritten(pages);
    assert markers == [false];
    var at := Placements(pages, markers);
    assert at == [0] by {
      assert pages[..0] == [] && markers[..0] == [];
    }
    ReadBack(pages, markers);
    assert ReadsBack(pages, markers);
    assert ReadMemH(Image(pages)) == Some(Layout(pages, at));
    OnePageLayout(pages[0], 0);
    assert WordAddresses(pages) == [0x200];
    OnePageLayout(pages[0], 0x200);
    StoreWordsAt(map[], 0, PageWords(bytes), 0);
    StoreWordsAt(map[], 0x200, PageWords(bytes), 0);
    assert 0 in Layout(pages, at) && 0 !in MemOf(pages);
  }

  /**
   * Counterexample: after a page at 0x1_0000_0000, whose offset `last_page`
   * truncates to 0, a page at 0x1000 gets no address line and is read back
   * right after the first page instead of at its own address.
   */
  lemma TruncatedLastPageMisplaced(first: seq<byte>, second: seq<byte>)
    requires |first| == PAGE_SIZE && |second| == PAGE_SIZE
    ensures var pages := [Page(0x1_0000_0000, first), Page(0x1000, second)];
      !MarkersAsWritten(pages)[1] && ReadMemH(Image(pages)) != Some(MemOf(pages))
  {
    var pages := [Page(0x1_0000_0000, first), Page(0x1000, second)];
    var markers := MarkersAsWritten(pages);
    assert markers == [true, false];
    var at := Placements(pages, markers);
    var at1 := Placements([pages[0]], [true]);
    assert at1 == [0x2000_0000] by {
      assert [pages[0]][..0] == [] && [true][..0] == [];
    }
    assert at == [0x2000_0000, 0x2000_0200] by {
      assert pages[..1] == [pages[0]] && markers[..1] == [true];
      assert at == at1 + [NextAddress(at1)];
    }
    ReadBack(pages, markers);
    assert ReadsBack(pages, markers);
    assert ReadMemH(Image(pages)) == Some(Layout(pages, at));
    var low := StoreWords(map[], 0x2000_0000, PageWords(first));
    StoreWordsAt(map[], 0x2000_0000, PageWords(first), 0x200);
    TwoPageLayout(pages[0], pages[1], 0x2000_0000, 0x2000_0200);
    StoreWordsAt(low, 0x2000_0200, PageWords(second), 0x200);
    assert WordAddresses(pages) == [0x2000_0000, 0x200];
    TwoPageLayout(pages[0], pages[1], 0x2000_0000, 0x200);
    StoreWordsAt(low, 0x200, PageWords(second), 0x200);
    assert 0x200 !in Layout(pages, at) && 0x200 in MemOf(pages);
  }

  /** The data lines of a page, read back as bytes, are the page's buffer. */
  lemma DataLinesRoundTrip(bytes: seq<byte>)
    requires |bytes| == PAGE_SIZE
    ensures var lines := DataLines(bytes);
      Unpack(seq(|lines|, i requires 0 <= i < |lines| => ParseHex(lines[i])), 8) == bytes
  {
    var lines := DataLines(bytes);
    var ws := seq(|lines|, i requires 0 <= i < |lines| => ParseHex(lines[i]));
    forall i | 0 <= i < WORDS_PER_PAGE
      ensures ws[i] == Pack(bytes, 8, WORDS_PER_PAGE)[i]
    {
      Hex16Parses(Word(bytes, i));
    }
    assert ws == Pack(bytes, 8, WORDS_PER_PAGE);
    UnpackPack(bytes, 8, WORDS_PER_PAGE);
  }
}
