/** The self-checks of the state component: the single-pass check of its layout table and
the comparison of the processor's CPUID answers with the expected ones.
*/
module Layout {
  import opened Words
  import opened Encoders

  const ARCH_OFFSET: u32 := 0x3000
  const ARCH_BYTES: u32 := 8192
  const ARCH_ALIGN: u32 := 64
  const ARCH_COMPONENT: u32 := 20

  // ----- the layout table -----

  datatype Row = Row(expectedOffset: u32, expectedBytes: u32, actualOffset: u64, actualBytes: u64)

  /** The end of a row as 32-bit arithmetic has it, and the true one. */
  function WrappedEnd(r: Row): u32 {
    (r.expectedOffset + r.expectedBytes) % TWO_32
  }

  function End(r: Row): nat {
    r.expectedOffset + r.expectedBytes
  }

  predicate Agrees(r: Row) {
    r.expectedOffset == r.actualOffset && r.expectedBytes == r.actualBytes
  }

  predicate AllAgree(rows: seq<Row>) {
    forall i :: 0 <= i < |rows| ==> Agrees(rows[i])
  }

  /** Every region ends before each later one starts. */
  predicate Ordered(rows: seq<Row>) {
    forall i, j :: 0 <= i < j < |rows| ==> End(rows[i]) <= rows[j].expectedOffset
  }

  predicate Disjoint(a: Row, b: Row) {
    End(a) <= b.expectedOffset || End(b) <= a.expectedOffset || a.expectedBytes == 0 || b.expectedBytes == 0
  }

  predicate Wraps(r: Row) {
    End(r) >= TWO_32
  }

  /** What one pass that looks at neighbours only can see. */
  predicate AdjacentOk(rows: seq<Row>) {
    forall i :: 0 < i < |rows| ==> WrappedEnd(rows[i - 1]) <= rows[i].expectedOffset
  }

  method CheckRows(rows: seq<Row>, stateBytes: u64) returns (ok: bool)
    ensures ok <==> AllAgree(rows) && AdjacentOk(rows) && stateBytes == 8192
  {
    ok := true;
    var previousEnd := 0;
    for n := 0 to |rows|
      invariant previousEnd == if n == 0 then 0 else WrappedEnd(rows[n - 1])
      invariant ok <==> AllAgree(rows[..n]) && AdjacentOk(rows[..n])
    {
      var row := rows[n];
      assert rows[..n + 1] == rows[..n] + [row];
      assert ok && Agrees(row) && previousEnd <= row.expectedOffset <==>
        AllAgree(rows[..n + 1]) && AdjacentOk(rows[..n + 1]) by {
        PassExtends(rows[..n], row);
      }
      if row.expectedOffset != row.actualOffset || row.expectedBytes != row.actualBytes {
        ok := false;
      }
      if row.expectedOffset < previousEnd {
        ok := false;
      }
      previousEnd := (row.expectedOffset + row.expectedBytes) % TWO_32;
    }
    assert rows[..|rows|] == rows;
    if stateBytes != ARCH_BYTES {
      ok := false;
    }
    if ARCH_OFFSET % ARCH_ALIGN != 0 || ARCH_BYTES % ARCH_ALIGN != 0 {
      ok := false;
    }
  }

  lemma PassExtends(rows: seq<Row>, row: Row)
    ensures AllAgree(rows + [row]) <==> AllAgree(rows) && Agrees(row)
    ensures AdjacentOk(rows + [row]) <==>
      AdjacentOk(rows) && (rows == [] || WrappedEnd(rows[|rows| - 1]) <= row.expectedOffset)
  {
    var more := rows + [row];
    assert forall i :: 0 <= i < |rows| ==> more[i] == rows[i];
    assert more[|rows|] == row;
  }

  /** Looking at neighbours is enough when no end wraps: it accepts exactly the tables whose
      regions are in order, each before all later ones. */
  lemma NeighboursSuffice(rows: seq<Row>)
    requires forall i :: 0 <= i < |rows| ==> !Wraps(rows[i])
    ensures AdjacentOk(rows) <==> Ordered(rows)
  {
    if AdjacentOk(rows) {
      WrapDecides(rows);
    }
  }

  /** An accepted table is in order exactly when no row other than the last wraps. */
  lemma WrapDecides(rows: seq<Row>)
    requires AdjacentOk(rows)
    ensures Ordered(rows) <==> forall i :: 0 <= i < |rows| - 1 ==> !Wraps(rows[i])
  {
    if forall i :: 0 <= i < |rows| - 1 ==> !Wraps(rows[i]) {
      forall i, j | 0 <= i < j < |rows|
        ensures End(rows[i]) <= rows[j].expectedOffset
      {
        Chain(rows, i, j);
      }
    } else {
      var i :| 0 <= i < |rows| - 1 && Wraps(rows[i]);
      assert End(rows[i]) > rows[i + 1].expectedOffset;
    }
  }

  lemma {:induction false} Chain(rows: seq<Row>, i: nat, j: nat)
    requires AdjacentOk(rows) && i < j < |rows|
    requires forall k :: 0 <= k < |rows| - 1 ==> !Wraps(rows[k])
    ensures End(rows[i]) <= rows[j].expectedOffset
    decreases j - i
  {
    assert WrappedEnd(rows[j - 1]) == End(rows[j - 1]) <= rows[j].expectedOffset;
    if i < j - 1 {
      Chain(rows, i, j - 1);
    }
  }

  lemma OrderedIsDisjoint(rows: seq<Row>, i: nat, j: nat)
    requires Ordered(rows) && i < |rows| && j < |rows| && i != j
    ensures Disjoint(rows[i], rows[j])
  {
    if i < j {
      assert End(rows[i]) <= rows[j].expectedOffset;
    } else {
      assert End(rows[j]) <= rows[i].expectedOffset;
    }
  }

  /** A row that wraps hides an overlap from the check. */
  lemma WrapHidesOverlap()
    ensures var rows := [Row(0xffff_f000, 0x2000, 0xffff_f000, 0x2000),
                         Row(0xffff_f800, 0x100, 0xffff_f800, 0x100)];
      AllAgree(rows) && AdjacentOk(rows) && !Ordered(rows) && !Disjoint(rows[0], rows[1])
  {
    var rows := [Row(0xffff_f000, 0x2000, 0xffff_f000, 0x2000), Row(0xffff_f800, 0x100, 0xffff_f800, 0x100)];
    assert WrappedEnd(rows[0]) == 0x1000;
    assert End(rows[0]) > rows[1].expectedOffset;
  }

  // ----- the CPUID contract -----

  datatype Regs = Regs(eax: u32, ebx: u32, ecx: u32, edx: u32)
  datatype Check = Check(name: string, leaf: u32, subleaf: u32, expected: Regs)
  datatype Failure = Failure(name: string, leaf: u32, subleaf: u32, actual: Regs, expected: Regs)

  predicate SupportsState(r: Regs) {
    r.eax / 0x10_0000 % 2 != 0 && r.ecx >= ARCH_OFFSET + ARCH_BYTES
  }

  /** A bit is set if and only if ORing it in changes nothing. */
  lemma {:induction false} BitIsSet(x: nat, k: nat)
    ensures Or(x, Pow2(k)) == x <==> x / Pow2(k) % 2 == 1
  {
    hide Or;
    OrSplit(x, Pow2(k));
    if k == 0 {
      OrNothing(x / 2);
    } else {
      BitIsSet(x / 2, k - 1);
      HalfThenShift(x, Pow2(k - 1));
    }
  }

  lemma OrNothing(x: nat)
    ensures Or(x, 0) == x
  {
  }

  const XSAVE_SUPPORT: Check :=
    Check("standard XSAVE Poly component support", 0xd, 0,
          Regs(0x10_0000, 0, ARCH_OFFSET + ARCH_BYTES, 0))

  const XSAVE_COMPONENT: Check :=
    Check("standard XSAVE Poly component", 0xd, ARCH_COMPONENT, Regs(ARCH_BYTES, ARCH_OFFSET, 2, 0))

  /** All tests in the order in which they are made: the given table, then the two tests of
      the standard XSAVE leaf, of which the first accepts more than one answer. */
  function Tests(checks: seq<Check>): seq<Check> {
    checks + [XSAVE_SUPPORT, XSAVE_COMPONENT]
  }

  predicate Passes(checks: seq<Check>, k: nat, cpuid: (u32, u32) -> Regs)
    requires k < |Tests(checks)|
  {
    var test := Tests(checks)[k];
    var actual := cpuid(test.leaf, test.subleaf);
    if k == |checks| then SupportsState(actual) else actual == test.expected
  }

  predicate FirstFailing(checks: seq<Check>, k: nat, cpuid: (u32, u32) -> Regs) {
    && k < |Tests(checks)| && !Passes(checks, k, cpuid)
    && forall j :: 0 <= j < k ==> Passes(checks, j, cpuid)
  }

  function FailureOf(test: Check, cpuid: (u32, u32) -> Regs): Failure {
    Failure(test.name, test.leaf, test.subleaf, cpuid(test.leaf, test.subleaf), test.expected)
  }

  /** For any table and any processor: no failure exactly when every test passes, and
      otherwise the failure is that of the first test that does not. */
  method VerifyContract(checks: seq<Check>, cpuid: (u32, u32) -> Regs) returns (failure: Option<Failure>)
    ensures failure.None? <==> forall k :: 0 <= k < |Tests(checks)| ==> Passes(checks, k, cpuid)
    ensures failure.Some? ==>
      exists k: nat :: FirstFailing(checks, k, cpuid) && failure.value == FailureOf(Tests(checks)[k], cpuid)
  {
    for i := 0 to |checks|
      invariant forall k :: 0 <= k < i ==> Passes(checks, k, cpuid)
    {
      var check := checks[i];
      assert Tests(checks)[i] == check;
      var actual := cpuid(check.leaf, check.subleaf);
      if actual != check.expected {
        assert FirstFailing(checks, i, cpuid);
        return Some(Failure(check.name, check.leaf, check.subleaf, actual, check.expected));
      }
    }
    var xsave0 := cpuid(0xd, 0);
    assert Tests(checks)[|checks|] == XSAVE_SUPPORT;
    if !SupportsState(xsave0) {
      assert FirstFailing(checks, |checks|, cpuid);
      return Some(Failure("standard XSAVE Poly component support", 0xd, 0, xsave0,
                          Regs(0x10_0000, 0, ARCH_OFFSET + ARCH_BYTES, 0)));
    }
    var component := cpuid(0xd, ARCH_COMPONENT);
    assert Tests(checks)[|checks| + 1] == XSAVE_COMPONENT;
    if component != Regs(ARCH_BYTES, ARCH_OFFSET, 2, 0) {
      assert FirstFailing(checks, |checks| + 1, cpuid);
      return Some(Failure("standard XSAVE Poly component", 0xd, ARCH_COMPONENT, component,
                          Regs(ARCH_BYTES, ARCH_OFFSET, 2, 0)));
    }
    return None;
  }

  /** What it takes to pass, for any processor: every check of the table, component 20 among
      the supported ones, room for the first 20480 bytes of the area, and the component of
      8192 bytes at offset 0x3000, aligned and of the user. */
  lemma ContractMeans(checks: seq<Check>, cpuid: (u32, u32) -> Regs)
    ensures (forall k :: 0 <= k < |Tests(checks)| ==> Passes(checks, k, cpuid)) <==>
      && (forall k :: 0 <= k < |checks| ==> cpuid(checks[k].leaf, checks[k].subleaf) == checks[k].expected)
      && Or(cpuid(0xd, 0).eax, Pow2(20)) == cpuid(0xd, 0).eax && cpuid(0xd, 0).ecx >= 20480
      && cpuid(0xd, 20) == Regs(8192, 0x3000, 2, 0)
  {
    hide Or, Pow2;
    var n, tests := |checks|, Tests(checks);
    Pow2Values();
    BitIsSet(cpuid(0xd, 0).eax, 20);
    assert tests[n] == XSAVE_SUPPORT && tests[n + 1] == XSAVE_COMPONENT;
    assert forall k :: 0 <= k < n ==> tests[k] == checks[k];
    assert Passes(checks, n, cpuid) <==> SupportsState(cpuid(0xd, 0));
    assert Passes(checks, n + 1, cpuid) <==> cpuid(0xd, 20) == Regs(8192, 0x3000, 2, 0);
    forall k | 0 <= k < n
      ensures Passes(checks, k, cpuid) <==> cpuid(checks[k].leaf, checks[k].subleaf) == checks[k].expected
    {
    }
  }
}
