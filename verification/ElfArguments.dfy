/**
 The page with the arguments of main (library/elf/elf.c:57-70): argc, then 16 pointers, then the argument strings, 32
 bytes each.
 */
module ElfArguments {
  import opened Wrappers
  import opened Memory
  import opened SoftTlb
  import opened ElfImage

  const APPS_ARG := 0x8030_0000
  const ARG_PAGE := 0x80300  // APPS_ARG / PAGE_SIZE
  const CMD_NARGS := 16
  const CMD_ARG_LEN := 32

  function WordAt(page: Page, at: int): int
    requires 0 <= at <= 4096 - 4
  {
    WordOf(page[at..at + 4])
  }

  lemma SplicedWord(page: Page, at: int, v: int)
    requires 0 <= at <= 4096 - 4 && 0 <= v < 0x1_0000_0000
    ensures WordAt(Splice(page, at, WordBytes(v)), at) == v
  {
    assert Splice(page, at, WordBytes(v))[at..at + 4] == WordBytes(v);
    WordRoundTrip(v);
  }

  lemma WordElsewhere(page: Page, at: int, bytes: seq<byte>, w: int)
    requires 0 <= at && at + |bytes| <= 4096 && 0 <= w <= 4096 - 4 && (w + 4 <= at || at + |bytes| <= w)
    ensures WordAt(Splice(page, at, bytes), w) == WordAt(page, w)
  {
    assert Splice(page, at, bytes)[w..w + 4] == page[w..w + 4];
  }

  /** Where the i-th string is. */
  function StringAddr(i: int): int {
    APPS_ARG + 4 + 4 * 16 + i * 32
  }

  /** The page says argc, has pointers to n strings, and has the strings (if the caller gave any). */
  ghost predicate Arguments(page: Page, argc: int, argv: Option<seq<byte>>, n: int)
    requires 0 <= n <= argc <= CMD_NARGS && (argv.Some? ==> |argv.value| == argc * CMD_ARG_LEN)
  {
    && WordAt(page, 0) == argc
    && (forall i :: 0 <= i < n ==> WordAt(page, 4 + 4 * i) == StringAddr(i))
    && (argv.Some? ==> page[4 + 4 * CMD_NARGS..4 + 4 * CMD_NARGS + |argv.value|] == argv.value)
  }

  lemma ArgcAndStrings(page: Page, argc: int, argv: Option<seq<byte>>, page1: Page, page2: Page)
    requires 0 <= argc <= CMD_NARGS && (argv.Some? ==> |argv.value| == argc * CMD_ARG_LEN)
    requires page1 == Splice(page, 0, WordBytes(argc))
    requires page2 == if argv.Some? then Splice(page1, 4 + 4 * CMD_NARGS, argv.value) else page1
    ensures Arguments(page2, argc, argv, 0)
  {
    SplicedWord(page, 0, argc);
    if argv.Some? {
      WordElsewhere(page1, 4 + 4 * CMD_NARGS, argv.value, 0);
    }
  }

  lemma OnePointer(page: Page, argc: int, argv: Option<seq<byte>>, n: int)
    requires 0 <= n < argc <= CMD_NARGS && (argv.Some? ==> |argv.value| == argc * CMD_ARG_LEN)
    requires Arguments(page, argc, argv, n)
    ensures Arguments(Splice(page, 4 + 4 * n, WordBytes(StringAddr(n))), argc, argv, n + 1)
  {
    var bytes := WordBytes(StringAddr(n));
    var page' := Splice(page, 4 + 4 * n, bytes);
    SplicedWord(page, 4 + 4 * n, StringAddr(n));
    WordElsewhere(page, 4 + 4 * n, bytes, 0);
    forall i | 0 <= i < n
      ensures WordAt(page', 4 + 4 * i) == StringAddr(i)
    {
      WordElsewhere(page, 4 + 4 * n, bytes, 4 + 4 * i);
    }
  }

  /** What main finds: argc at 0x8030_0000, the pointer to argument i four bytes after the one before, and where it
      points to, on the same page, the 32 bytes of the argument. */
  ghost predicate ArgumentsInPlace(spaces: Spaces, pid: int, argc: int, argv: Option<seq<byte>>) {
    var a := Addr(pid, 0x8_0300);
    && a in spaces && HoldsWord(spaces[a], 0, argc)
    && forall i :: 0 <= i < argc <= 16 ==> ArgumentInPlace(spaces[a], argv, i)
  }

  ghost predicate ArgumentInPlace(page: Page, argv: Option<seq<byte>>, i: int) {
    && 0 <= i < 16 && HoldsWord(page, 4 + 4 * i, 0x8030_0000 + (68 + 32 * i))
    && (argv.Some? && |argv.value| >= 32 * i + 32 ==>
        page[68 + 32 * i..100 + 32 * i] == argv.value[32 * i..32 * i + 32])
  }

  lemma ArgumentsFound(spaces: Spaces, pid: int, argc: int, argv: Option<seq<byte>>)
    requires 0 <= argc <= CMD_NARGS && (argv.Some? ==> |argv.value| == argc * CMD_ARG_LEN)
    requires Addr(pid, ARG_PAGE) in spaces && Arguments(spaces[Addr(pid, ARG_PAGE)], argc, argv, argc)
    ensures ArgumentsInPlace(spaces, pid, argc, argv)
  {
    var page := spaces[Addr(pid, ARG_PAGE)];
    WordHeld(page, 0);
    forall i | 0 <= i < argc
      ensures ArgumentInPlace(page, argv, i)
    {
      WordHeld(page, 4 + 4 * i);
      assert WordAt(page, 4 + 4 * i) == StringAddr(i);
      if argv.Some? {
        SliceOfSlice(page, 68, 68 + |argv.value|, 32 * i, 32 * i + 32);
      }
    }
  }

  lemma SliceOfSlice(s: seq<byte>, a: int, b: int, c: int, d: int)
    requires 0 <= a <= b <= |s| && 0 <= c <= d <= b - a
    ensures s[a..b][c..d] == s[a + c..a + d]
  {
    var x, y := s[a..b][c..d], s[a + c..a + d];
    forall k | 0 <= k < |x|
      ensures x[k] == y[k]
    {
      assert x[k] == s[a..b][c + k];
    }
  }

  /** Following argv[i] from the page, within the page, leads to the i-th string. */
  lemma PointersLead(page: Page, argc: int, argv: seq<byte>, i: int)
    requires 0 <= i < argc <= CMD_NARGS && |argv| == argc * CMD_ARG_LEN && Arguments(page, argc, Some(argv), argc)
    ensures var p := WordAt(page, 4 + 4 * i) - APPS_ARG;
            && 0 <= p && p + CMD_ARG_LEN <= 4096
            && page[p..p + CMD_ARG_LEN] == argv[i * 32..i * 32 + CMD_ARG_LEN]
  {
    assert page[68..68 + |argv|] == argv;
    assert WordAt(page, 4 + 4 * i) == StringAddr(i) == APPS_ARG + (68 + i * 32);
    SliceOfSlice(page, 68, 68 + |argv|, i * 32, i * 32 + 32);
  }
}
