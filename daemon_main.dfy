/**
 * The helpers of the daemon's entry point (daemon/main.c): the --core and
 * --fps argument parsing, the per-frame checksum, the frame period, and
 * the exit conditions of the poll loop.
 */
module DaemonMain {
  import opened Abi
  import opened Wrappers
  import AchLoad
  import AchGrammar

  // ---------------------------------------------------------------------------
  // --core
  // ---------------------------------------------------------------------------

  /** parse_core: None is a null pointer. */
  function ParseCore(s: Option<string>): (r: u32)
    ensures r == CORE_NES <==> s == Some("nes")
    ensures r == CORE_SNES <==> s == Some("snes")
    ensures r == CORE_GENESIS <==> s == Some("genesis") || s == Some("gen") || s == Some("md")
    ensures r == CORE_UNKNOWN || r == CORE_NES || r == CORE_SNES || r == CORE_GENESIS
  {
    if s.None? then CORE_UNKNOWN
    else if s.value == "nes" then CORE_NES
    else if s.value == "snes" then CORE_SNES
    else if s.value == "genesis" then CORE_GENESIS
    else if s.value == "gen" then CORE_GENESIS
    else if s.value == "md" then CORE_GENESIS
    else CORE_UNKNOWN
  }

  // ---------------------------------------------------------------------------
  // simple_checksum
  // ---------------------------------------------------------------------------

  const CHECKSUM_SEED: bv32 := 0x12345678

  /** One round of the loop: x := (x << 5) ^ (x >> 27) ^ b, in 32-bit arithmetic, the byte zero-extended. */
  function Step(x: bv32, b: bv8): bv32
  {
    (x << 5) ^ (x >> 27) ^ (b as bv32)
  }

  /** The rounds over buf starting from x, first byte first. */
  function Fold(x: bv32, buf: seq<bv8>): bv32
    decreases |buf|
  {
    if buf == [] then x else Fold(Step(x, buf[0]), buf[1..])
  }

  /** simple_checksum's result for the bytes buf. */
  function Checksum(buf: seq<bv8>): bv32
  {
    Fold(CHECKSUM_SEED, buf)
  }

  /** Each round is a 32-bit rotate left by five, then an xor with the byte. */
  lemma StepIsRotate(x: bv32, b: bv8)
    ensures Step(x, b) == x.RotateLeft(5) ^ (b as bv32)
  {
  }

  /** The inverse of a round, given the byte. */
  function Unstep(y: bv32, b: bv8): bv32
  {
    (y ^ (b as bv32)).RotateRight(5)
  }

  lemma UnstepStep(x: bv32, b: bv8)
    ensures Unstep(Step(x, b), b) == x
  {
    StepIsRotate(x, b);
  }

  /** The empty buffer checksums to the seed. */
  lemma ChecksumEmpty()
    ensures Checksum([]) == 0x12345678
  {
  }

  /** The fold over a concatenation folds the second part from where the first ended. */
  lemma {:induction false} FoldAppend(x: bv32, a: seq<bv8>, b: seq<bv8>)
    ensures Fold(x, a + b) == Fold(Fold(x, a), b)
    decreases |a|
  {
    if a != [] {
      assert (a + b)[1..] == a[1..] + b;
      FoldAppend(Step(x, a[0]), a[1..], b);
    } else {
      assert a + b == b;
    }
  }

  /** The checksum is a left fold: checksum(a + [b]) == step(checksum(a), b). */
  lemma ChecksumSnoc(a: seq<bv8>, b: bv8)
    ensures Checksum(a + [b]) == Step(Checksum(a), b)
  {
    FoldAppend(CHECKSUM_SEED, a, [b]);
    assert [b][1..] == [];
  }

  /** Different starting values stay different after any number of rounds. */
  lemma {:induction false} FoldInjective(x: bv32, y: bv32, buf: seq<bv8>)
    requires x != y
    ensures Fold(x, buf) != Fold(y, buf)
    decreases |buf|
  {
    if buf != [] {
      UnstepStep(x, buf[0]);
      UnstepStep(y, buf[0]);
      FoldInjective(Step(x, buf[0]), Step(y, buf[0]), buf[1..]);
    }
  }

  /** Within one round, different bytes give different results. */
  lemma StepInjectiveByte(x: bv32, b1: bv8, b2: bv8)
    requires b1 != b2
    ensures Step(x, b1) != Step(x, b2)
  {
  }

  /** Changing any one byte of a buffer changes its checksum. */
  lemma SingleByteChange(p: seq<bv8>, b1: bv8, b2: bv8, s: seq<bv8>)
    requires b1 != b2
    ensures Checksum(p + [b1] + s) != Checksum(p + [b2] + s)
  {
    var c := Checksum(p);
    StepInjectiveByte(c, b1, b2);
    FoldAppend(CHECKSUM_SEED, p + [b1], s);
    FoldAppend(CHECKSUM_SEED, p + [b2], s);
    ChecksumSnoc(p, b1);
    ChecksumSnoc(p, b2);
    FoldInjective(Step(c, b1), Step(c, b2), s);
  }

  /** simple_checksum over the first n bytes of buf. */
  method SimpleChecksum(buf: seq<bv8>, n: u32) returns (x: bv32)
    requires n <= |buf|
    ensures x == Checksum(buf[..n])
  {
    x := CHECKSUM_SEED;
    var i: u32 := 0;
    while i < n
      invariant i <= n
      invariant x == Checksum(buf[..i])
    {
      ChecksumSnoc(buf[..i], buf[i]);
      assert buf[..i] + [buf[i]] == buf[..i + 1];
      x := Step(x, buf[i]);
      i := i + 1;
    }
  }

  /** A buffer of uint8_t values as the 8-bit vectors the checksum works on, byte for byte. */
  function Bits8(p: seq<u8>): (r: seq<bv8>)
    ensures |r| == |p|
  {
    seq(|p|, k requires 0 <= k < |p| => p[k] as bv8)
  }

  // ---------------------------------------------------------------------------
  // --fps and the frame period
  // ---------------------------------------------------------------------------

  const DEFAULT_FPS: u32 := 60

  /** atoi: optional leading white space, an optional sign, then the longest digit run (0 without digits). */
  function Atoi(s: string): int
  {
    var i := AchLoad.SkipSpace(s, 0);
    var neg := i < |s| && s[i] == '-';
    var k := DigitsStart(s);
    var j := AchLoad.DigitsEnd(s, k);
    var v: int := AchLoad.DecValue(s[k..j]);
    if neg then -v else v
  }

  /** Where atoi starts reading digits: after the white space and an optional sign. */
  function DigitsStart(s: string): (k: nat)
    ensures k <= |s|
  {
    var i := AchLoad.SkipSpace(s, 0);
    if i < |s| && (s[i] == '-' || s[i] == '+') then i + 1 else i
  }

  /** `--fps N`: (uint32_t)atoi(N), with 0 replaced by the default 60. */
  function FpsFromArg(arg: string): (r: u32)
    ensures r != 0
    ensures Atoi(arg) % 0x1_0000_0000 == 0 ==> r == DEFAULT_FPS
    ensures Atoi(arg) % 0x1_0000_0000 != 0 ==> r == Atoi(arg) % 0x1_0000_0000
  {
    var f := Atoi(arg) % 0x1_0000_0000;
    if f == 0 then DEFAULT_FPS else f
  }

  /** An argument with no digit where atoi looks for one gives the default rate. */
  lemma FpsNonNumeric(arg: string)
    requires DigitsStart(arg) == |arg| || !AchLoad.IsDigit(arg[DigitsStart(arg)])
    ensures FpsFromArg(arg) == DEFAULT_FPS
  {
    var k := DigitsStart(arg);
    assert AchLoad.DigitsEnd(arg, k) == k;
    assert arg[k..k] == [];
    assert Atoi(arg) == 0;
  }

  /** A decimal rate in range is taken as written; "0" gives the default. */
  lemma FpsDecimal(n: u32)
    ensures FpsFromArg(AchGrammar.Dec(n)) == if n == 0 then DEFAULT_FPS else n
  {
    var d := AchGrammar.Dec(n);
    AtoiDigits(d);
    assert Atoi(d) == n;
    assert n % 0x1_0000_0000 == n;
  }

  /** atoi of a bare digit run is its decimal value. */
  lemma AtoiDigits(d: string)
    requires d != [] && AchLoad.AllDigits(d)
    ensures Atoi(d) == AchLoad.DecValue(d)
  {
    assert !AchLoad.IsSpace(d[0]);
    assert AchLoad.SkipSpace(d, 0) == 0;
    assert d[0] != '-' && d[0] != '+';
    assert DigitsStart(d) == 0;
    assert AchLoad.DigitsEnd(d, 0) == |d|;
    assert d[0..|d|] == d;
  }

  /** The frame period in milliseconds: 1000 / fps (16 for fps 0), at least 1. */
  function FrameMs(fps: u32): (r: u32)
    ensures r >= 1
    ensures 0 < fps <= 1000 ==> r == 1000 / fps && r * fps <= 1000 < (r + 1) * fps
    ensures fps > 1000 ==> r == 1
    ensures fps == 0 ==> r == 16
  {
    var ms := if fps > 0 then 1000 / fps else 16;
    if ms == 0 then 1 else ms
  }

  // ---------------------------------------------------------------------------
  // The poll loop
  // ---------------------------------------------------------------------------

  /**
   * What one iteration of the loop sees: the get_info answer (None on
   * failure), whether the seek to 0 succeeded, and the bytes read (None
   * when read returns a negative count).
   */
  datatype Tick = Tick(info: Option<Info>, seekOk: bool, read: Option<seq<u8>>)

  /** One logged line: the frame counter and the checksum of the bytes read. */
  datatype Report = Report(frame: u64, checksum: bv32)

  predicate TickFails(t: Tick)
  {
    t.info.None? || !t.seekOk || t.read.None?
  }

  /** The report of an iteration that completes. */
  function ReportOf(t: Tick): Report
    requires !TickFails(t)
  {
    Report(t.info.value.frameCounter, Checksum(Bits8(t.read.value)))
  }

  /** The reports of the loop over a sequence of iterations: it stops at the first failure. */
  function PollReports(ticks: seq<Tick>): (r: seq<Report>)
    ensures |r| <= |ticks|
  {
    if ticks == [] || TickFails(ticks[0]) then []
    else [ReportOf(ticks[0])] + PollReports(ticks[1..])
  }

  /**
   * If iteration k is the first to fail, exactly the k iterations before
   * it are reported, each with the checksum of all the bytes it read.
   */
  lemma {:induction false} PollStopsAtFirstFailure(ticks: seq<Tick>, k: nat)
    requires k < |ticks| && TickFails(ticks[k])
    requires forall j :: 0 <= j < k ==> !TickFails(ticks[j])
    ensures |PollReports(ticks)| == k
    ensures forall j :: 0 <= j < k ==> PollReports(ticks)[j] == ReportOf(ticks[j])
  {
    if k > 0 {
      PollStopsAtFirstFailure(ticks[1..], k - 1);
    }
  }

  /** When no iteration fails, every one is reported. */
  lemma {:induction false} PollAllReported(ticks: seq<Tick>)
    requires forall j :: 0 <= j < |ticks| ==> !TickFails(ticks[j])
    ensures |PollReports(ticks)| == |ticks|
    ensures forall j :: 0 <= j < |ticks| ==> PollReports(ticks)[j] == ReportOf(ticks[j])
  {
    if ticks != [] {
      PollAllReported(ticks[1..]);
    }
  }

  /**
   * The while(1) loop of main over the iterations it gets to see: it
   * checksums the bytes each read returned and stops at the first failed
   * get_info, seek or read.
   */
  method PollLoop(ticks: seq<Tick>) returns (reports: seq<Report>)
    requires forall j :: 0 <= j < |ticks| && ticks[j].read.Some? ==> |ticks[j].read.value| < 0x1_0000_0000
    ensures reports == PollReports(ticks)
  {
    reports := [];
    var i := 0;
    while i < |ticks|
      invariant 0 <= i <= |ticks|
      invariant reports + PollReports(ticks[i..]) == PollReports(ticks)
    {
      var t := ticks[i];
      if t.info.None? {
        break;
      }
      var lastFrame := t.info.value.frameCounter;
      if !t.seekOk {
        break;
      }
      if t.read.None? {
        break;
      }
      var bytes := t.read.value;
      var bits := Bits8(bytes);
      var csum := SimpleChecksum(bits, |bytes|);
      assert bits[..|bytes|] == bits;
      assert ticks[i..][1..] == ticks[i + 1..];
      reports := reports + [Report(lastFrame, csum)];
      i := i + 1;
    }
  }
}
