/**
 * The register snapshot `sim_t::dump_register` writes to `reginfo.bin`: a
 * positional stream of 64-bit words holding the catalogued CSRs that the
 * hart implements, an adjusted `mstatus`, the pc and x1..x31.
 */
module RegisterSnapshot {

  import opened Encoding

  // CSR numbers from the CSR map of the RISC-V privileged architecture
  const CSR_SSTATUS: int := 0x100
  const CSR_SIE: int := 0x104
  const CSR_STVEC: int := 0x105
  const CSR_SCOUNTEREN: int := 0x106
  const CSR_SSCRATCH: int := 0x140
  const CSR_SATP: int := 0x180
  const CSR_MISA: int := 0x301
  const CSR_MEDELEG: int := 0x302
  const CSR_MIDELEG: int := 0x303
  const CSR_MIE: int := 0x304
  const CSR_MTVEC: int := 0x305
  const CSR_MCOUNTEREN: int := 0x306
  const CSR_MEPC: int := 0x341
  const CSR_PMPCFG0: int := 0x3a0
  const CSR_PMPCFG2: int := 0x3a2
  const CSR_PMPADDR0: int := 0x3b0

  /** Entry `i` of `csr_index`, the CSRs the snapshot saves, in the order it writes them. */
  function CatalogEntry(i: int): int
    requires 0 <= i < 31
  {
    match i
    case 0 => CSR_SSTATUS
    case 1 => CSR_SIE
    case 2 => CSR_STVEC
    case 3 => CSR_SCOUNTEREN
    case 4 => CSR_SSCRATCH
    case 5 => CSR_SATP
    case 6 => CSR_MISA
    case 7 => CSR_MEDELEG
    case 8 => CSR_MIDELEG
    case 9 => CSR_MIE
    case 10 => CSR_MEPC
    case 11 => CSR_MTVEC
    case 12 => CSR_MCOUNTEREN
    case 13 => CSR_PMPCFG0
    case 14 => CSR_PMPCFG2
    case _ => CSR_PMPADDR0 + (i - 15)
  }

  /** `csr_index`: sstatus .. pmpcfg2, then pmpaddr0 .. pmpaddr15. */
  function Catalog(): (cat: seq<int>)
    ensures |cat| == 31 && forall i :: 0 <= i < 31 ==> cat[i] == CatalogEntry(i)
  {
    seq(31, CatalogEntry)
  }

  /** The position of a CSR in the catalog: the inverse of `CatalogEntry`. */
  function CatalogRank(c: int): int {
    if c == CSR_SSTATUS then 0
    else if c == CSR_SIE then 1
    else if c == CSR_STVEC then 2
    else if c == CSR_SCOUNTEREN then 3
    else if c == CSR_SSCRATCH then 4
    else if c == CSR_SATP then 5
    else if c == CSR_MISA then 6
    else if c == CSR_MEDELEG then 7
    else if c == CSR_MIDELEG then 8
    else if c == CSR_MIE then 9
    else if c == CSR_MEPC then 10
    else if c == CSR_MTVEC then 11
    else if c == CSR_MCOUNTEREN then 12
    else if c == CSR_PMPCFG0 then 13
    else if c == CSR_PMPCFG2 then 14
    else c - CSR_PMPADDR0 + 15
  }

  /** Bit positions of the `mstatus` fields the snapshot adjusts. */
  const MIE_BIT: bv64 := 3
  const MPIE_BIT: bv64 := 7
  const MPP_SHIFT: bv64 := 11

  predicate Distinct(s: seq<int>) {
    forall i, j :: 0 <= i < j < |s| ==> s[i] != s[j]
  }

  /** The catalog names 31 different CSRs, sstatus first and pmpaddr15 last. */
  lemma CatalogShape()
    ensures |Catalog()| == 31 && Catalog()[0] == CSR_SSTATUS && Catalog()[30] == 0x3bf
    ensures Distinct(Catalog())
  {
    forall i | 0 <= i < 31
      ensures CatalogRank(Catalog()[i]) == i
    {
    }
  }

  /** The live state of hart 0 that the snapshot reads. */
  datatype Hart = Hart(csrs: map<int, bv64>, mstatus: bv64, prv: bv64, pc: bv64, xpr: seq<bv64>)

  // ---------------------------------------------------------------------
  // The adjusted status word

  /**
   * Lines 103-104 of `dump_register`: MPP (bits 12:11) becomes the current
   * privilege, then MPIE (bit 7) is ORed with MIE (bit 3), so that an `mret`
   * in the restore code returns to the saved privilege with the saved
   * interrupt enable.
   */
  function AdjustStatus(mstatus: bv64, prv: bv64): (r: bv64)
    ensures (r >> MPP_SHIFT) & 3 == prv & 3
    ensures (r >> MPIE_BIT) & 1 == ((mstatus >> MPIE_BIT) | (mstatus >> MIE_BIT)) & 1
    ensures r & !0x1880 == mstatus & !0x1880
  {
    var m := (mstatus & !(3 << 11)) | ((prv & 3) << 11);
    m | ((m & (1 << 3)) << 4)
  }

  /** For the privilege levels U, S and M the saved MPP is exactly `prv`, and MIE is kept. */
  lemma AdjustedPrivilege(mstatus: bv64, prv: bv64)
    requires prv == 0 || prv == 1 || prv == 3
    ensures (AdjustStatus(mstatus, prv) >> MPP_SHIFT) & 3 == prv
    ensures (AdjustStatus(mstatus, prv) >> MIE_BIT) & 1 == (mstatus >> MIE_BIT) & 1
  {
  }

  /** Adjusting an already adjusted word for the same privilege changes nothing. */
  lemma AdjustIdempotent(mstatus: bv64, prv: bv64)
    ensures AdjustStatus(AdjustStatus(mstatus, prv), prv) == AdjustStatus(mstatus, prv)
  {
  }

  // ---------------------------------------------------------------------
  // The word stream

  /** The values of the CSRs of `cat` that the hart has, in `cat` order; absent ones leave no word. */
  function PresentCsrs(csrs: map<int, bv64>, cat: seq<int>): seq<bv64>
    decreases |cat|
  {
    if cat == [] then []
    else
      var n := |cat| - 1;
      PresentCsrs(csrs, cat[..n]) + (if cat[n] in csrs then [csrs[cat[n]]] else [])
  }

  /** The whole snapshot: present CSRs, adjusted `mstatus`, pc, then x1..x31 (x0 is not saved). */
  function Snapshot(h: Hart): seq<bv64>
    requires |h.xpr| == 32
  {
    PresentCsrs(h.csrs, Catalog()) + [AdjustStatus(h.mstatus, h.prv), h.pc] + h.xpr[1..]
  }

  /** `sim_t::dump_register`: the words written to `reginfo.bin`, in order. */
  method DumpRegister(h: Hart) returns (regState: seq<bv64>)
    requires |h.xpr| == 32
    ensures regState == Snapshot(h)
  {
    regState := DumpCsrs(h.csrs, Catalog());
    var mstatus := h.mstatus;
    var priv := h.prv;
    mstatus := (mstatus & !(3 << 11)) | ((priv & 3) << 11);
    mstatus := mstatus | ((mstatus & (1 << 3)) << 4);
    regState := regState + [mstatus];
    regState := regState + [h.pc];
    ghost var head := regState;
    var r := 1;
    while r < 32
      invariant 1 <= r <= 32
      invariant regState == head + h.xpr[1..r]
    {
      regState := regState + [h.xpr[r]];
      assert h.xpr[1..r + 1] == h.xpr[1..r] + [h.xpr[r]];
      r := r + 1;
    }
  }

  /** Lines 91-99 of `dump_register`: the words of the CSRs of `cat` the hart has, skipping the others. */
  method DumpCsrs(csrs: map<int, bv64>, cat: seq<int>) returns (ws: seq<bv64>)
    ensures ws == PresentCsrs(csrs, cat)
  {
    ws := [];
    var i := 0;
    while i < |cat|
      invariant 0 <= i <= |cat|
      invariant ws == PresentCsrs(csrs, cat[..i])
    {
      assert cat[..i + 1][..i] == cat[..i];
      if cat[i] in csrs {
        var csrVal := csrs[cat[i]];
        ws := ws + [csrVal];
      }
      i := i + 1;
    }
    assert cat[..i] == cat;
  }

  // ---------------------------------------------------------------------
  // What the stream holds where

  /** The catalogued CSRs the hart has. */
  function PresentSet(csrs: map<int, bv64>, cat: seq<int>): set<int> {
    set c | c in cat && c in csrs
  }

  /** There is one CSR word per present catalogued CSR, whatever is missing. */
  lemma {:induction false} PresentCount(csrs: map<int, bv64>, cat: seq<int>)
    requires Distinct(cat)
    ensures |PresentCsrs(csrs, cat)| == |PresentSet(csrs, cat)|
    decreases |cat|
  {
    if cat != [] {
      var n := |cat| - 1;
      PresentCount(csrs, cat[..n]);
      if cat[n] in csrs {
        assert PresentSet(csrs, cat) == PresentSet(csrs, cat[..n]) + {cat[n]};
        assert cat[n] !in PresentSet(csrs, cat[..n]);
      } else {
        assert PresentSet(csrs, cat) == PresentSet(csrs, cat[..n]);
      }
    }
  }

  /** The snapshot is (present catalogued CSRs) + 1 + 1 + 31 words long. */
  lemma SnapshotLength(h: Hart)
    requires |h.xpr| == 32
    ensures |Snapshot(h)| == |PresentSet(h.csrs, Catalog())| + 33
  {
    CatalogShape();
    PresentCount(h.csrs, Catalog());
  }

  /** A present CSR's word sits after the words of the present CSRs catalogued before it. */
  lemma {:induction false} CsrPosition(csrs: map<int, bv64>, cat: seq<int>, i: nat)
    requires i < |cat| && cat[i] in csrs
    ensures |PresentCsrs(csrs, cat[..i])| < |PresentCsrs(csrs, cat)|
    ensures PresentCsrs(csrs, cat)[|PresentCsrs(csrs, cat[..i])|] == csrs[cat[i]]
    decreases |cat|
  {
    var n := |cat| - 1;
    assert cat[..n] == cat[..n][..n];
    if i < n {
      assert cat[..n][..i] == cat[..i];
      CsrPosition(csrs, cat[..n], i);
    }
  }

  /** After the CSR words come the adjusted status, the pc and x1..x31, in index order. */
  lemma SnapshotTail(h: Hart)
    requires |h.xpr| == 32
    ensures var m := |PresentCsrs(h.csrs, Catalog())|;
      |Snapshot(h)| == m + 33 &&
      Snapshot(h)[m] == AdjustStatus(h.mstatus, h.prv) && Snapshot(h)[m + 1] == h.pc &&
      forall r :: 1 <= r < 32 ==> Snapshot(h)[m + 1 + r] == h.xpr[r]
  {
  }

  /** `x0` is never written: harts that differ only in `x0` give the same snapshot. */
  lemma SnapshotIgnoresX0(h: Hart, x0: bv64)
    requires |h.xpr| == 32
    ensures Snapshot(h.(xpr := h.xpr[0 := x0])) == Snapshot(h)
  {
    assert h.xpr[0 := x0][1..] == h.xpr[1..];
  }

  // ---------------------------------------------------------------------
  // Reading a snapshot back

  /** The fields a restorer recovers from a snapshot. */
  datatype Saved = Saved(csrs: map<int, bv64>, mstatus: bv64, pc: bv64, xpr: seq<bv64>)

  /** How many of `cat` are in `present`: the number of CSR words to expect. */
  function CountIn(cat: seq<int>, present: set<int>): nat
    decreases |cat|
  {
    if cat == [] then 0
    else
      var n := |cat| - 1;
      CountIn(cat[..n], present) + (if cat[n] in present then 1 else 0)
  }

  /** The CSR words `ws` assigned, in `cat` order, to the CSRs of `cat` that are in `present`. */
  function CsrMap(ws: seq<bv64>, cat: seq<int>, present: set<int>): map<int, bv64>
    requires |ws| == CountIn(cat, present)
    decreases |cat|
  {
    if cat == [] then map[]
    else
      var n := |cat| - 1;
      if cat[n] in present then CsrMap(ws[..|ws| - 1], cat[..n], present)[cat[n] := ws[|ws| - 1]]
      else CsrMap(ws, cat[..n], present)
  }

  /**
   * Splits a snapshot into its fields, given which catalogued CSRs were
   * present; a stream of the wrong length is rejected. A stream that parses
   * is exactly the snapshot of what it parses to, with one CSR value for each
   * present catalogued CSR: the parse loses nothing.
   */
  function ParseSnapshot(words: seq<bv64>, present: set<int>): (r: Option<Saved>)
    ensures r.Some? <==> |words| == CountIn(Catalog(), present) + 33
    ensures r.Some? ==> r.value.csrs.Keys == set c | c in Catalog() && c in present
    ensures r.Some? ==> PresentCsrs(r.value.csrs, Catalog()) + [r.value.mstatus, r.value.pc] + r.value.xpr == words
  {
    var n := CountIn(Catalog(), present);
    if |words| != n + 33 then None
    else
      CatalogShape();
      PresentOfCsrMap(words[..n], Catalog(), present);
      assert words == words[..n] + [words[n], words[n + 1]] + words[n + 2..];
      Some(Saved(CsrMap(words[..n], Catalog(), present), words[n], words[n + 1], words[n + 2..]))
  }

  lemma {:induction false} PresentCsrsCount(csrs: map<int, bv64>, cat: seq<int>)
    ensures |PresentCsrs(csrs, cat)| == CountIn(cat, csrs.Keys)
    decreases |cat|
  {
    if cat != [] {
      PresentCsrsCount(csrs, cat[..|cat| - 1]);
    }
  }

  /** Reading the CSR words back yields each present catalogued CSR with its value. */
  lemma {:induction false} CsrMapOfPresent(csrs: map<int, bv64>, cat: seq<int>)
    ensures |PresentCsrs(csrs, cat)| == CountIn(cat, csrs.Keys)
    ensures CsrMap(PresentCsrs(csrs, cat), cat, csrs.Keys) == map c | c in cat && c in csrs :: csrs[c]
    decreases |cat|
  {
    PresentCsrsCount(csrs, cat);
    if cat != [] {
      var n := |cat| - 1;
      var init := cat[..n];
      CsrMapOfPresent(csrs, init);
      PresentCsrsCount(csrs, init);
      var ws := PresentCsrs(csrs, cat);
      var m := map c | c in init && c in csrs :: csrs[c];
      assert forall c :: c in cat <==> c in init || c == cat[n];
      if cat[n] in csrs {
        assert ws == PresentCsrs(csrs, init) + [csrs[cat[n]]];
        assert ws[..|ws| - 1] == PresentCsrs(csrs, init) && ws[|ws| - 1] == csrs[cat[n]];
        assert CsrMap(ws, cat, csrs.Keys) == m[cat[n] := csrs[cat[n]]];
        assert (map c | c in cat && c in csrs :: csrs[c]) == m[cat[n] := csrs[cat[n]]];
      } else {
        assert ws == PresentCsrs(csrs, init) + [];
        assert ws == PresentCsrs(csrs, init);
        assert CsrMap(ws, cat, csrs.Keys) == CsrMap(ws, init, csrs.Keys);
        assert (map c | c in cat && c in csrs :: csrs[c]) == m;
      }
    }
  }

  /** Writing the recovered CSRs out again in catalog order gives back the CSR words. */
  lemma {:induction false} PresentOfCsrMap(ws: seq<bv64>, cat: seq<int>, present: set<int>)
    requires Distinct(cat) && |ws| == CountIn(cat, present)
    ensures CsrMap(ws, cat, present).Keys == set c | c in cat && c in present
    ensures PresentCsrs(CsrMap(ws, cat, present), cat) == ws
    decreases |cat|
  {
    if cat != [] {
      var n := |cat| - 1;
      var init := cat[..n];
      var m := CsrMap(ws, cat, present);
      var rest := if cat[n] in present then ws[..|ws| - 1] else ws;
      PresentOfCsrMap(rest, init, present);
      assert forall c :: c in cat <==> c in init || c == cat[n];
      assert cat[n] !in init;
      PresentFrame(CsrMap(rest, init, present), m, init);
      if cat[n] in present {
        assert ws == rest + [ws[|ws| - 1]];
      }
    }
  }

  /** `PresentCsrs` over `cat` only looks at the CSRs of `cat`. */
  lemma {:induction false} PresentFrame(a: map<int, bv64>, b: map<int, bv64>, cat: seq<int>)
    requires forall c :: c in cat ==> (c in a <==> c in b) && (c in a ==> a[c] == b[c])
    ensures PresentCsrs(a, cat) == PresentCsrs(b, cat)
    decreases |cat|
  {
    if cat != [] {
      var n := |cat| - 1;
      var c := cat[n];
      assert c in cat;
      assert (c in a <==> c in b) && (c in a ==> a[c] == b[c]);
      PresentFrame(a, b, cat[..n]);
      assert PresentCsrs(a, cat) == PresentCsrs(a, cat[..n]) + (if c in a then [a[c]] else []);
      assert PresentCsrs(b, cat) == PresentCsrs(b, cat[..n]) + (if c in b then [b[c]] else []);
    }
  }

  /** A snapshot read back with its presence set gives the catalogued CSRs, the adjusted status, the pc and x1..x31. */
  lemma ParseOfSnapshot(h: Hart)
    requires |h.xpr| == 32
    ensures ParseSnapshot(Snapshot(h), h.csrs.Keys) ==
      Some(Saved(map c | c in Catalog() && c in h.csrs :: h.csrs[c], AdjustStatus(h.mstatus, h.prv), h.pc, h.xpr[1..]))
  {
    CsrMapOfPresent(h.csrs, Catalog());
    var ws := Snapshot(h);
    var n := |PresentCsrs(h.csrs, Catalog())|;
    assert ws[..n] == PresentCsrs(h.csrs, Catalog());
    assert ws[n + 2..] == h.xpr[1..];
  }

  /**
   * Without the presence set the stream is ambiguous: a hart with only
   * sstatus and one with only sie, holding the same value, write the same
   * words.
   */
  lemma PresenceNeeded(h: Hart)
    requires |h.xpr| == 32
    ensures Snapshot(h.(csrs := map[CSR_SSTATUS := 5])) == Snapshot(h.(csrs := map[CSR_SIE := 5]))
  {
    assert Catalog()[0] == CSR_SSTATUS && Catalog()[1] == CSR_SIE;
    OnlyOnePresent(CSR_SSTATUS, 5);
    OnlyOnePresent(CSR_SIE, 5);
  }

  /** A hart with a single catalogued CSR writes just that CSR's word. */
  lemma OnlyOnePresent(c: int, v: bv64)
    requires c in Catalog()
    ensures PresentCsrs(map[c := v], Catalog()) == [v]
  {
    CatalogShape();
    var i :| 0 <= i < |Catalog()| && Catalog()[i] == c;
    OnlyOneAt(c, v, Catalog(), i);
  }

  lemma {:induction false} OnlyOneAt(c: int, v: bv64, cat: seq<int>, i: nat)
    requires Distinct(cat) && i < |cat| && cat[i] == c
    ensures PresentCsrs(map[c := v], cat) == [v]
    decreases |cat|
  {
    var n := |cat| - 1;
    if i < n {
      OnlyOneAt(c, v, cat[..n], i);
    } else {
      NoneAt(c, v, cat[..n]);
    }
  }

  lemma {:induction false} NoneAt(c: int, v: bv64, cat: seq<int>)
    requires c !in cat
    ensures PresentCsrs(map[c := v], cat) == []
    decreases |cat|
  {
    if cat != [] {
      NoneAt(c, v, cat[..|cat| - 1]);
    }
  }
}
