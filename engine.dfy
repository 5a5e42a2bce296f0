/**
 * The achievement engine (daemon/engine.c).
 *
 * Two parts: the peek bridge through which the rcheevos runtime reads the
 * memory snapshot (`read_le_safe`, `ra_peek`), and the policy that decides
 * which achievement set is active (`engine_load_builtin`,
 * `engine_load_ach_file`).
 *
 * The rcheevos runtime is foreign code. Its state is the sequence of
 * activations it has accepted, and `rc_runtime_activate_achievement` is an
 * oracle that accepts or rejects one (id, memaddr) pair given that state.
 * `rc_runtime_reset` empties the sequence.
 */
module Engine {
  import opened Abi
  import opened Wrappers
  import opened Bits
  import opened AchLoad

  // ---------------------------------------------------------------------------
  // Peek bridge
  // ---------------------------------------------------------------------------

  /** The little-endian value of a byte string: p[0] + 256 * p[1] + 256^2 * p[2] + ... */
  function LeValue(p: seq<u8>): nat
  {
    if p == [] then 0 else p[0] + 256 * LeValue(p[1..])
  }

  /** A little-endian value of k bytes fits in 8k bits. */
  lemma {:induction false} LeValueBound(p: seq<u8>)
    ensures LeValue(p) < Pow2(8 * |p|)
  {
    if p != [] {
      LeValueBound(p[1..]);
      Pow2Add(8, 8 * (|p| - 1));
      assert Pow2(8) == 256;
    }
  }

  /** At most four bytes give a value that fits a uint32_t. */
  lemma LeValueU32(p: seq<u8>)
    requires |p| <= 4
    ensures LeValue(p) < 0x1_0000_0000
  {
    LeValueBound(p);
    Pow2Add(8 * |p|, 32 - 8 * |p|);
    MulAtLeast(Pow2(8 * |p|), Pow2(32 - 8 * |p|));
    Pow2Add(8, 8);
    Pow2Add(16, 16);
    assert Pow2(8) == 256;
  }

  /** Appending a byte adds it at the next lane: LeValue(q + [b]) == LeValue(q) + b * 2^(8|q|). */
  lemma {:induction false} LeSnoc(q: seq<u8>, b: u8)
    ensures LeValue(q + [b]) == LeValue(q) + b * Pow2(8 * |q|)
  {
    if q == [] {
      assert [b][1..] == [];
    } else {
      assert (q + [b])[1..] == q[1..] + [b];
      LeSnoc(q[1..], b);
      var x, p := LeValue(q[1..]), Pow2(8 * (|q| - 1));
      Pow2Add(8, 8 * (|q| - 1));
      assert Pow2(8) == 256;
      assert Pow2(8 * |q|) == 256 * p;
      var y := b * p;
      assert LeValue(q + [b]) == q[0] + 256 * (x + y);
      assert b * (256 * p) == 256 * y;
    }
  }

  /**
   * The value of `v` after i rounds of the loop in read_le_safe, each round
   * OR-ing in `p[i] << 8*i`: it is the little-endian value of the first i bytes.
   */
  function LeAcc(p: seq<u8>, i: nat): (r: nat)
    requires i <= |p| && i <= 4
    ensures r == LeValue(p[..i])
  {
    if i == 0 then 0
    else
      var v := LeAcc(p, i - 1);
      LeValueBound(p[..i - 1]);
      BitOrDisjoint(v, p[i - 1], 8 * (i - 1));
      LeSnoc(p[..i - 1], p[i - 1]);
      assert p[..i - 1] + [p[i - 1]] == p[..i];
      BitOr(v, p[i - 1] * Pow2(8 * (i - 1)))
  }

  /**
   * read_le_safe: the bytes p are what is available from the read position on
   * (avail == |p|). Fewer than n available bytes give 0; otherwise the
   * little-endian value of the first n.
   */
  function ReadLeSafe(p: seq<u8>, n: u32): (r: u32)
    requires n <= 4
    ensures |p| < n ==> r == 0
    ensures n <= |p| ==> r == LeValue(p[..n])
  {
    if |p| < n then 0
    else
      LeValueU32(p[..n]);
      LeAcc(p, n)
  }

  /**
   * ra_peek: `ctx` is the snapshot handed to the runtime, None when the
   * context or its memory pointer is null.
   */
  function RaPeek(ctx: Option<seq<u8>>, address: u32, n: u32): (r: u32)
    requires n <= 4
    ensures ctx.None? ==> r == 0
    ensures ctx.Some? && address >= |ctx.value| ==> r == 0
    ensures ctx.Some? && address < |ctx.value| < address + n ==> r == 0
    ensures ctx.Some? && address + n <= |ctx.value| ==> r == LeValue(ctx.value[address..address + n])
  {
    match ctx
    case None => 0
    case Some(mem) =>
      if address >= |mem| then 0
      else
        assert address + n <= |mem| ==> mem[address..][..n] == mem[address..address + n];
        ReadLeSafe(mem[address..], n)
  }

  /** A peek of n bytes is below 2^(8n). */
  lemma PeekBound(ctx: Option<seq<u8>>, address: u32, n: u32)
    requires n <= 4
    ensures RaPeek(ctx, address, n) < Pow2(8 * n)
  {
    if ctx.Some? && address + n <= |ctx.value| {
      LeValueBound(ctx.value[address..address + n]);
    }
  }

  /**
   * A peek depends only on the snapshot's length and on the bytes in
   * [address, address + n) that lie inside it: it never reads past the end.
   */
  lemma PeekFrame(m1: seq<u8>, m2: seq<u8>, address: u32, n: u32)
    requires n <= 4 && |m1| == |m2|
    requires forall k :: address <= k < address + n && k < |m1| ==> m1[k] == m2[k]
    ensures RaPeek(Some(m1), address, n) == RaPeek(Some(m2), address, n)
  {
    if address + n <= |m1| {
      assert m1[address..address + n] == m2[address..address + n];
    }
  }

  /** The little-endian encoding of v in n bytes (v modulo 2^(8n)). */
  function LeBytes(v: nat, n: nat): (r: seq<u8>)
    ensures |r| == n
  {
    if n == 0 then [] else [v % 256] + LeBytes(v / 256, n - 1)
  }

  /** Decoding an encoding gives the value back. */
  lemma {:induction false} LeBytesValue(v: nat, n: nat)
    requires v < Pow2(8 * n)
    ensures LeValue(LeBytes(v, n)) == v
  {
    if n > 0 {
      Pow2Add(8, 8 * (n - 1));
      assert Pow2(8) == 256;
      assert v / 256 < Pow2(8 * (n - 1));
      LeBytesValue(v / 256, n - 1);
      assert LeBytes(v, n)[1..] == LeBytes(v / 256, n - 1);
    } else {
      assert v == 0;
    }
  }

  /** Encoding a decoded string gives the bytes back. */
  lemma {:induction false} LeValueBytes(p: seq<u8>)
    ensures LeBytes(LeValue(p), |p|) == p
  {
    if p != [] {
      var x := LeValue(p[1..]);
      var v := p[0] + 256 * x;
      assert v == 256 * x + p[0];
      ModUnique(v, 256, x, p[0]);
      assert v / 256 == x;
      LeValueBytes(p[1..]);
    }
  }

  /** A value stored little-endian at `address` is what a peek there returns. */
  lemma PeekEncoded(pre: seq<u8>, v: nat, n: u32, post: seq<u8>)
    requires n <= 4 && v < Pow2(8 * n) && |pre| < 0x1_0000_0000
    ensures RaPeek(Some(pre + LeBytes(v, n) + post), |pre|, n) == v
  {
    var mem := pre + LeBytes(v, n) + post;
    if n == 0 {
      assert v == 0;
    } else {
      assert mem[|pre|..|pre| + n] == LeBytes(v, n);
      LeBytesValue(v, n);
    }
  }

  lemma SmallValue(p: seq<u8>)
    requires |p| == 2 && p[0] == 3 && p[1] == 4
    ensures LeValue(p) == 0x0403
  {
    assert p[1..][1..] == [];
    assert LeValue(p[1..]) == 4;
  }

  /** For the snapshot [1, 2, 3, 4]: a straddling read is 0, an in-bounds one little-endian, one past the end 0. */
  lemma PeekExamples()
    ensures RaPeek(Some([1, 2, 3, 4]), 2, 4) == 0
    ensures RaPeek(Some([1, 2, 3, 4]), 2, 2) == 0x0403
    ensures RaPeek(Some([1, 2, 3, 4]), 10, 1) == 0
    ensures RaPeek(None, 0, 1) == 0
  {
    var mem: seq<u8> := [1, 2, 3, 4];
    SmallValue(mem[2..4]);
  }

  // ---------------------------------------------------------------------------
  // Achievement-set policy
  // ---------------------------------------------------------------------------

  /** engine_backend_t. */
  datatype Backend = BackendNone | BackendRa

  /** One achievement the runtime accepted. */
  datatype Activation = Activation(id: u32, memaddr: string)

  /**
   * rc_runtime_activate_achievement returning RC_OK, as a function of the
   * runtime's active set, the id and the memaddr expression.
   */
  type Oracle = (seq<Activation>, u32, string) -> bool

  /** The NES mock set, in activation order; the title field holds the display name. */
  const BUILTINS: seq<AchDef> := [
    AchDef(1, "SMB1: Entered World 1-1", "0xH075F=0_0xH075C=1"),
    AchDef(2, "SMB1: Stockpile (5 lives)", "0xH075A=5"),
    AchDef(3, "SMB1: Counter Hit 5 (coins LE16)", "0xH07ED=5_0xH07EE=0")
  ]

  /** The activation request a definition makes. */
  function Act(d: AchDef): Activation
  {
    Activation(d.id, d.memaddr)
  }

  function Acts(ds: seq<AchDef>): (r: seq<Activation>)
    ensures |r| == |ds|
  {
    seq(|ds|, i requires 0 <= i < |ds| => Act(ds[i]))
  }

  lemma ActsSnoc(ds: seq<AchDef>, d: AchDef)
    ensures Acts(ds + [d]) == Acts(ds) + [Act(d)]
  {
    assert Acts(ds + [d]) == Acts(ds) + [Act(d)];
  }

  /**
   * The builtin loop: activate ds in order starting from active set a,
   * stopping at the first rejection. The result is the new active set and
   * whether every activation succeeded.
   */
  function ActivatePrefix(a: seq<Activation>, ds: seq<AchDef>, accept: Oracle): (r: (seq<Activation>, bool))
    ensures |a| <= |r.0| <= |a| + |ds|
    ensures r.0 == a + Acts(ds[..|r.0| - |a|])
    ensures r.1 <==> |r.0| == |a| + |ds|
    decreases |ds|
  {
    if ds == [] then (a, true)
    else
      var n := |ds| - 1;
      var prev := ActivatePrefix(a, ds[..n], accept);
      assert forall k :: 0 <= k <= n ==> ds[..n][..k] == ds[..k];
      if !prev.1 then prev
      else if accept(prev.0, ds[n].id, ds[n].memaddr) then
        ActsSnoc(ds[..n], ds[n]);
        assert ds[..n] + [ds[n]] == ds[..n + 1];
        (prev.0 + [Act(ds[n])], true)
      else (prev.0, false)
  }

  /**
   * The builtin loop stops exactly at the first rejection: every activation
   * it made was accepted by the oracle, and on failure the next one was not.
   */
  lemma {:induction false} ActivatePrefixStops(a: seq<Activation>, ds: seq<AchDef>, accept: Oracle)
    ensures var r := ActivatePrefix(a, ds, accept);
      && (forall j :: 0 <= j < |r.0| - |a| ==> accept(a + Acts(ds[..j]), ds[j].id, ds[j].memaddr))
      && (!r.1 ==> !accept(r.0, ds[|r.0| - |a|].id, ds[|r.0| - |a|].memaddr))
    decreases |ds|
  {
    if ds != [] {
      var n := |ds| - 1;
      ActivatePrefixStops(a, ds[..n], accept);
      assert forall k :: 0 <= k <= n ==> ds[..n][..k] == ds[..k];
    }
  }

  /**
   * The file loop: offer every definition of ds in order, starting from
   * active set a; the result is the new active set and the number of
   * activations that succeeded.
   */
  function ActivateAll(a: seq<Activation>, ds: seq<AchDef>, accept: Oracle): (r: (seq<Activation>, nat))
    ensures |a| <= |r.0| <= |a| + |ds| && r.0[..|a|] == a
    ensures r.1 == |r.0| - |a|
    ensures forall k :: |a| <= k < |r.0| ==> r.0[k] in Acts(ds)
    decreases |ds|
  {
    if ds == [] then (a, 0)
    else
      var n := |ds| - 1;
      var prev := ActivateAll(a, ds[..n], accept);
      ActsSnoc(ds[..n], ds[n]);
      assert ds[..n] + [ds[n]] == ds;
      if accept(prev.0, ds[n].id, ds[n].memaddr) then (prev.0 + [Act(ds[n])], prev.1 + 1)
      else prev
  }

  /** Offering a set to an oracle that accepts everything activates all of it. */
  lemma {:induction false} ActivateAllAccepted(a: seq<Activation>, ds: seq<AchDef>, accept: Oracle)
    requires forall x, id, m :: accept(x, id, m)
    ensures ActivateAll(a, ds, accept) == (a + Acts(ds), |ds|)
    decreases |ds|
  {
    if ds != [] {
      var n := |ds| - 1;
      ActivateAllAccepted(a, ds[..n], accept);
      var prev := ActivateAll(a, ds[..n], accept);
      assert accept(prev.0, ds[n].id, ds[n].memaddr);
      assert ActivateAll(a, ds, accept) == (prev.0 + [Act(ds[n])], prev.1 + 1);
      ActsSnoc(ds[..n], ds[n]);
      assert ds[..n] + [ds[n]] == ds;
      assert a + Acts(ds[..n]) + [Act(ds[n])] == a + Acts(ds);
    } else {
      assert a + Acts(ds) == a;
    }
  }

  /** Offering a set to an oracle that rejects everything activates nothing. */
  lemma {:induction false} ActivateAllRejected(a: seq<Activation>, ds: seq<AchDef>, accept: Oracle)
    requires forall x, id, m :: !accept(x, id, m)
    ensures ActivateAll(a, ds, accept) == (a, 0)
    decreases |ds|
  {
    if ds != [] {
      ActivateAllRejected(a, ds[..|ds| - 1], accept);
    }
  }

  /** struct engine_s, with the runtime reduced to its active set. */
  datatype EngineState = EngineState(
    backend: Backend,
    coreId: u32,
    active: seq<Activation>,
    builtinsLoaded: bool,
    fileLoaded: bool)

  /** engine_load_builtin as a state transition: the new state and the return value. */
  function BuiltinStep(s: EngineState, accept: Oracle): (EngineState, bool)
  {
    if s.backend != BackendRa then (s, true)
    else if s.fileLoaded then (s, true)
    else if s.builtinsLoaded then (s, true)
    else
      var s1 := s.(builtinsLoaded := true);
      if s.coreId != CORE_NES then (s1, true)
      else
        var r := ActivatePrefix(s.active, BUILTINS, accept);
        (s1.(active := r.0), r.1)
  }

  /**
   * engine_load_ach_file as a state transition. `path` is None for a null
   * pointer; `file` is what reading that path yields, None when it cannot
   * be opened.
   */
  function FileStep(s: EngineState, path: Option<string>, file: Option<seq<string>>, accept: Oracle): (EngineState, bool)
  {
    if s.backend != BackendRa then (s, true)
    else if path.None? || path.value == [] then (s, false)
    else if file.None? then (s, false)
    else
      var defs := Accepted(file.value);
      if defs == [] then (s, false)
      else
        var r := ActivateAll([], defs, accept);
        if r.1 == 0 then (s.(active := r.0), false)
        else (s.(active := r.0, fileLoaded := true, builtinsLoaded := false), true)
  }

  /** Without the RetroAchievements backend both loaders succeed and change nothing. */
  lemma NoBackendInert(s: EngineState, path: Option<string>, file: Option<seq<string>>, accept: Oracle)
    requires s.backend == BackendNone
    ensures BuiltinStep(s, accept) == (s, true)
    ensures FileStep(s, path, file, accept) == (s, true)
  {
  }

  /** Builtins are never loaded over a file set, nor twice. */
  lemma BuiltinSkipped(s: EngineState, accept: Oracle)
    requires s.fileLoaded || s.builtinsLoaded
    ensures BuiltinStep(s, accept) == (s, true)
  {
  }

  /**
   * After one call of engine_load_builtin, whatever it returned, a second
   * call changes nothing and returns true, even with another oracle.
   */
  lemma BuiltinOnce(s: EngineState, accept: Oracle, accept2: Oracle)
    ensures var t := BuiltinStep(s, accept).0;
      BuiltinStep(t, accept2) == (t, true)
  {
  }

  /** A non-NES core gets the flag set and nothing activated. */
  lemma BuiltinNonNes(s: EngineState, accept: Oracle)
    requires s.backend == BackendRa && !s.fileLoaded && !s.builtinsLoaded
    requires s.coreId != CORE_NES
    ensures BuiltinStep(s, accept) == (s.(builtinsLoaded := true), true)
  {
  }

  /**
   * On NES the builtin ids 1, 2, 3 are activated in order on top of the
   * active set, up to the first rejection; the call succeeds iff all three
   * are accepted. The flag is set either way.
   */
  lemma BuiltinNes(s: EngineState, accept: Oracle)
    requires s.backend == BackendRa && !s.fileLoaded && !s.builtinsLoaded
    requires s.coreId == CORE_NES
    ensures var (t, ok) := BuiltinStep(s, accept);
      && t.builtinsLoaded && !t.fileLoaded
      && t.backend == s.backend && t.coreId == s.coreId
      && |s.active| <= |t.active| <= |s.active| + 3
      && t.active == s.active + Acts(BUILTINS[..|t.active| - |s.active|])
      && (ok <==> |t.active| == |s.active| + 3)
      && (forall k :: |s.active| <= k < |t.active| ==> t.active[k].id == k - |s.active| + 1)
  {
    var r := ActivatePrefix(s.active, BUILTINS, accept);
    var k := |r.0| - |s.active|;
    var fresh_ := Acts(BUILTINS[..k]);
    assert r.0 == s.active + fresh_;
    forall i | |s.active| <= i < |r.0|
      ensures r.0[i].id == i - |s.active| + 1
    {
      assert r.0[i] == fresh_[i - |s.active|] == Act(BUILTINS[i - |s.active|]);
    }
  }

  /** With an oracle that accepts everything, NES ends with exactly the three builtins added. */
  lemma BuiltinNesAccepted(s: EngineState, accept: Oracle)
    requires s.backend == BackendRa && !s.fileLoaded && !s.builtinsLoaded
    requires s.coreId == CORE_NES
    requires forall x, id, m :: accept(x, id, m)
    ensures BuiltinStep(s, accept) == (s.(builtinsLoaded := true, active := s.active + [
      Activation(1, "0xH075F=0_0xH075C=1"),
      Activation(2, "0xH075A=5"),
      Activation(3, "0xH07ED=5_0xH07EE=0")]), true)
  {
    var r := ActivatePrefix(s.active, BUILTINS, accept);
    ActivatePrefixStops(s.active, BUILTINS, accept);
    assert r.1;
    assert BUILTINS[..3] == BUILTINS;
    assert Acts(BUILTINS) == [Act(BUILTINS[0]), Act(BUILTINS[1]), Act(BUILTINS[2])];
  }

  /**
   * A missing or empty path, a file that cannot be read, or a file with no
   * accepted definition: false, with the runtime and both flags untouched.
   */
  lemma FileRejected(s: EngineState, path: Option<string>, file: Option<seq<string>>, accept: Oracle)
    requires s.backend == BackendRa
    requires path.None? || path.value == [] || file.None? || Accepted(file.value) == []
    ensures FileStep(s, path, file, accept) == (s, false)
  {
  }

  /**
   * Once the file has definitions the runtime is reset, then: success iff
   * at least one activation succeeded; success sets file_loaded and clears
   * builtins_loaded; failure leaves the flags as they were with the runtime
   * empty. The new active set holds only activations of the file's definitions.
   */
  lemma FileOutcome(s: EngineState, path: string, lines: seq<string>, accept: Oracle)
    requires s.backend == BackendRa && path != [] && Accepted(lines) != []
    ensures var (t, ok) := FileStep(s, Some(path), Some(lines), accept);
      && t.backend == s.backend && t.coreId == s.coreId
      && (ok <==> t.active != [])
      && (ok ==> t.fileLoaded && !t.builtinsLoaded)
      && (!ok ==> t == s.(active := []))
      && (forall k :: 0 <= k < |t.active| ==> t.active[k] in Acts(Accepted(lines)))
  {
    var r := ActivateAll([], Accepted(lines), accept);
    assert r.0[0..] == r.0;
  }

  /** With an oracle that accepts everything, the active set becomes exactly the file's definitions, in file order. */
  lemma FileAccepted(s: EngineState, path: string, lines: seq<string>, accept: Oracle)
    requires s.backend == BackendRa && path != [] && Accepted(lines) != []
    requires forall x, id, m :: accept(x, id, m)
    ensures FileStep(s, Some(path), Some(lines), accept)
      == (s.(active := Acts(Accepted(lines)), fileLoaded := true, builtinsLoaded := false), true)
  {
    ActivateAllAccepted([], Accepted(lines), accept);
  }

  /** The file set takes precedence: after a successful file load, loading builtins is a no-op. */
  lemma FileThenBuiltin(s: EngineState, path: Option<string>, file: Option<seq<string>>, accept: Oracle, accept2: Oracle)
    requires FileStep(s, path, file, accept).1
    ensures var t := FileStep(s, path, file, accept).0;
      BuiltinStep(t, accept2) == (t, true)
  {
  }

  /**
   * The guards of engine_do_frame: the snapshot handed to the runtime as the
   * peek context, or None when the call returns early (no RetroAchievements
   * backend, null memory or zero length).
   */
  function FrameContext(s: EngineState, mem: Option<seq<u8>>): (r: Option<seq<u8>>)
    ensures r.Some? <==> s.backend == BackendRa && mem.Some? && |mem.value| > 0
    ensures r.Some? ==> r == mem
  {
    if s.backend != BackendRa then None
    else if mem.None? || |mem.value| == 0 then None
    else mem
  }

  /** The engine object: engine_s with the runtime's active set as a field. */
  class Engine {
    var backend: Backend
    var coreId: u32
    var active: seq<Activation>
    var builtinsLoaded: bool
    var fileLoaded: bool

    function State(): EngineState
      reads this
    {
      EngineState(backend, coreId, active, builtinsLoaded, fileLoaded)
    }

    /** engine_init once calloc succeeded: a fresh runtime and both flags clear. */
    constructor (backend: Backend, coreId: u32)
      ensures State() == EngineState(backend, coreId, [], false, false)
    {
      this.backend := backend;
      this.coreId := coreId;
      this.active := [];
      this.builtinsLoaded := false;
      this.fileLoaded := false;
    }

    /** engine_load_builtin. */
    method LoadBuiltin(accept: Oracle) returns (ok: bool)
      modifies this
      ensures (State(), ok) == BuiltinStep(old(State()), accept)
    {
      if backend != BackendRa { return true; }
      if fileLoaded { return true; }
      if builtinsLoaded { return true; }
      builtinsLoaded := true;
      if coreId != CORE_NES { return true; }

      var i := 0;
      while i < |BUILTINS|
        invariant 0 <= i <= |BUILTINS|
        invariant ActivatePrefix(old(active), BUILTINS[..i], accept) == (active, true)
        invariant backend == old(backend) && coreId == old(coreId)
        invariant builtinsLoaded && fileLoaded == old(fileLoaded)
      {
        var d := BUILTINS[i];
        assert BUILTINS[..i + 1][..i] == BUILTINS[..i];
        if !accept(active, d.id, d.memaddr) {
          assert ActivatePrefix(old(active), BUILTINS[..i + 1], accept) == (active, false);
          PrefixStops(old(active), BUILTINS, i + 1, accept);
          return false;
        }
        active := active + [Act(d)];
        i := i + 1;
      }
      assert BUILTINS[..i] == BUILTINS;
      return true;
    }

    /** engine_load_ach_file; `file` is what the loader reads from `path`. */
    method LoadAchFile(path: Option<string>, file: Option<seq<string>>, accept: Oracle) returns (ok: bool)
      modifies this
      ensures (State(), ok) == FileStep(old(State()), path, file, accept)
    {
      if backend != BackendRa { return true; }
      if path.None? || path.value == [] { return false; }

      var loaded, list := LoadFile(file);
      if !loaded { return false; }
      ghost var defs := list.Contents();
      if list.count == 0 {
        list.Free();
        return false;
      }

      // rc_runtime_reset, then the activation loop
      var okCount;
      active, okCount := ActivateList(list, accept);
      list.Free();

      if okCount == 0 { return false; }
      fileLoaded := true;
      builtinsLoaded := false;
      return true;
    }
  }

  /**
   * The activation loop of engine_load_ach_file over the loaded list,
   * starting from a freshly reset runtime: the new active set and ok_count.
   */
  method ActivateList(list: AchList, accept: Oracle) returns (active: seq<Activation>, okCount: nat)
    requires list.Valid()
    ensures (active, okCount) == ActivateAll([], list.Contents(), accept)
  {
    ghost var defs := list.Contents();
    active := [];
    okCount := 0;
    var j := 0;
    while j < list.count
      invariant 0 <= j <= list.count
      invariant ActivateAll([], defs[..j], accept) == (active, okCount)
    {
      var a := list.items[j];
      assert defs[..j + 1][..j] == defs[..j] && defs[j] == a;
      if accept(active, a.id, a.memaddr) {
        okCount := okCount + 1;
        active := active + [Activation(a.id, a.memaddr)];
      }
      j := j + 1;
    }
    assert defs[..j] == defs;
  }

  /** Once a prefix of the builtin loop has failed, the whole loop has. */
  lemma {:induction false} PrefixStops(a: seq<Activation>, ds: seq<AchDef>, i: nat, accept: Oracle)
    requires i <= |ds|
    requires !ActivatePrefix(a, ds[..i], accept).1
    ensures ActivatePrefix(a, ds, accept) == ActivatePrefix(a, ds[..i], accept)
    decreases |ds| - i
  {
    if i < |ds| {
      var n := |ds| - 1;
      assert ds[..n][..i] == ds[..i];
      PrefixStops(a, ds[..n], i, accept);
      assert ds[..|ds|] == ds;
    } else {
      assert ds[..i] == ds;
    }
  }

  /** engine_init: None when allocation fails (allocOk false), else a fresh engine with nothing loaded. */
  method EngineInit(backend: Backend, coreId: u32, allocOk: bool) returns (eng: Option<Engine>)
    ensures eng.Some? <==> allocOk
    ensures eng.Some? ==> fresh(eng.value) && eng.value.State() == EngineState(backend, coreId, [], false, false)
  {
    if !allocOk { return None; }
    var e := new Engine(backend, coreId);
    return Some(e);
  }
}
