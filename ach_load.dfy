/**
 * The achievement text-file loader (daemon/ach_load.c).
 *
 * A file is a sequence of lines; each line is parsed on its own by
 * `ParseLine`, and `LoadFile` keeps, in file order, the definitions of the
 * lines that parse, in an array that grows from 16 slots by doubling.
 * `LineDef` is the pure meaning of `ParseLine`; the lemmas below state the
 * line grammar in terms of it.
 */
module AchLoad {
  import opened Abi
  import opened Wrappers

  /** mmr_ach_def_t: one parsed `achievement <id> "<title>" <memaddr>` line. */
  datatype AchDef = AchDef(id: u32, title: string, memaddr: string)

  const KEYWORD: string := "achievement"
  const ULONG_MAX: nat := 0xFFFF_FFFF_FFFF_FFFF

  /** C's isspace in the "C" locale: space, \t, \n, \v, \f, \r. */
  predicate IsSpace(c: char)
  {
    c == ' ' || '\t' <= c <= '\r'
  }

  predicate IsDigit(c: char)
  {
    '0' <= c <= '9'
  }

  predicate AllSpace(s: string)
  {
    forall k :: 0 <= k < |s| ==> IsSpace(s[k])
  }

  predicate AllDigits(s: string)
  {
    forall k :: 0 <= k < |s| ==> IsDigit(s[k])
  }

  /** What a C function sees of a buffer: the characters before the first NUL. */
  function CStr(s: string): (r: string)
    ensures |r| <= |s| && r == s[..|r|]
    ensures '\0' !in r
    ensures |r| < |s| ==> s[|r|] == '\0'
  {
    if s == [] || s[0] == '\0' then [] else [s[0]] + CStr(s[1..])
  }

  /** The string rstrip leaves: the input without its trailing whitespace. */
  function TrimEnd(s: string): (r: string)
    ensures |r| <= |s| && r == s[..|r|]
    ensures r == [] || !IsSpace(r[|r| - 1])
    ensures AllSpace(s[|r|..])
  {
    if s != [] && IsSpace(s[|s| - 1]) then
      var t := s[..|s| - 1];
      var r := TrimEnd(t);
      assert s[|r|..] == t[|r|..] + [s[|s| - 1]];
      r
    else s
  }

  /** The index lskip stops at: the first non-whitespace character at or after i. */
  function SkipSpace(s: string, i: nat): (r: nat)
    requires i <= |s|
    ensures i <= r <= |s|
    ensures forall k :: i <= k < r ==> IsSpace(s[k])
    ensures r == |s| || !IsSpace(s[r])
    decreases |s| - i
  {
    if i < |s| && IsSpace(s[i]) then SkipSpace(s, i + 1) else i
  }

  /** The end of the run of decimal digits starting at i (where strtoul stops). */
  function DigitsEnd(s: string, i: nat): (r: nat)
    requires i <= |s|
    ensures i <= r <= |s|
    ensures forall k :: i <= k < r ==> IsDigit(s[k])
    ensures r == |s| || !IsDigit(s[r])
    decreases |s| - i
  {
    if i < |s| && IsDigit(s[i]) then DigitsEnd(s, i + 1) else i
  }

  /** The index of the first `"` at or after i, or |s| if there is none. */
  function QuoteEnd(s: string, i: nat): (r: nat)
    requires i <= |s|
    ensures i <= r <= |s|
    ensures forall k :: i <= k < r ==> s[k] != '"'
    ensures r == |s| || s[r] == '"'
    decreases |s| - i
  {
    if i < |s| && s[i] != '"' then QuoteEnd(s, i + 1) else i
  }

  function DigitValue(c: char): nat
    requires IsDigit(c)
  {
    (c as int) - ('0' as int)
  }

  /** The value of a run of decimal digits. */
  function DecValue(ds: string): nat
    requires AllDigits(ds)
  {
    if ds == [] then 0 else DecValue(ds[..|ds| - 1]) * 10 + DigitValue(ds[|ds| - 1])
  }

  /**
   * strtoul on a digit run (saturating at ULONG_MAX of a 64-bit long),
   * followed by the (uint32_t) cast of parse_line.
   */
  function StrtoulU32(ds: string): (r: u32)
    requires AllDigits(ds)
    ensures DecValue(ds) < 0x1_0000_0000 ==> r == DecValue(ds)
    ensures DecValue(ds) > ULONG_MAX ==> r == 0xFFFF_FFFF
  {
    var v := DecValue(ds);
    (if v > ULONG_MAX then ULONG_MAX else v) % 0x1_0000_0000
  }

  /** The keyword test of parse_line: "achievement" at s, followed by a whitespace character. */
  predicate HasKeyword(b: string, s: nat)
  {
    s + |KEYWORD| < |b| && b[s..s + |KEYWORD|] == KEYWORD && IsSpace(b[s + |KEYWORD|])
  }

  /** A definition as parse_line can produce it. */
  predicate WellFormed(d: AchDef)
  {
    && '"' !in d.title && '\0' !in d.title
    && d.memaddr != [] && '\0' !in d.memaddr
    && !IsSpace(d.memaddr[0]) && !IsSpace(d.memaddr[|d.memaddr| - 1])
  }

  /** The meaning of parse_line on one line of the file: parse the copy with its trailing whitespace removed. */
  function LineDef(line: string): (r: Option<AchDef>)
  {
    ParseTrimmed(TrimEnd(CStr(line)))
  }

  /** Skip leading whitespace; reject blank and comment lines and lines without the keyword. */
  function ParseTrimmed(b: string): Option<AchDef>
  {
    var s := SkipSpace(b, 0);
    if s == |b| || b[s] == '#' || (s + 1 < |b| && b[s] == '/' && b[s + 1] == '/') then None
    else if !HasKeyword(b, s) then None
    else ParseId(b, SkipSpace(b, s + |KEYWORD|))
  }

  /** The id: at least one decimal digit at p. */
  function ParseId(b: string, p: nat): Option<AchDef>
    requires p <= |b|
  {
    var e := DigitsEnd(b, p);
    if e == p then None else ParseTitle(b, StrtoulU32(b[p..e]), SkipSpace(b, e))
  }

  /** The title: from the `"` at q to the next `"`. */
  function ParseTitle(b: string, id: u32, q: nat): Option<AchDef>
    requires q <= |b|
  {
    if q == |b| || b[q] != '"' then None
    else
      var t := QuoteEnd(b, q + 1);
      if t == |b| then None else ParseMemaddr(b, id, b[q + 1..t], SkipSpace(b, t + 1))
  }

  /** The memaddr: the non-empty rest of the line from m. */
  function ParseMemaddr(b: string, id: u32, title: string, m: nat): Option<AchDef>
    requires m <= |b|
  {
    if m == |b| then None else Some(AchDef(id, title, b[m..]))
  }

  /** The definitions of the lines that parse, in file order. */
  function Accepted(lines: seq<string>): (r: seq<AchDef>)
    ensures |r| <= |lines|
  {
    if lines == [] then []
    else
      var last := lines[|lines| - 1];
      Accepted(lines[..|lines| - 1]) + (if LineDef(last).Some? then [LineDef(last).value] else [])
  }

  /** rstrip: the length the string has once trailing whitespace is overwritten with NULs. */
  method RStrip(s: string) returns (n: nat)
    ensures n <= |s| && s[..n] == TrimEnd(s)
  {
    n := |s|;
    while n > 0 && IsSpace(s[n - 1])
      invariant n <= |s|
      invariant TrimEnd(s[..n]) == TrimEnd(s)
    {
      assert s[..n][..n - 1] == s[..n - 1];
      n := n - 1;
    }
    assert s[..n] == TrimEnd(s[..n]);
  }

  /** lskip: advance past whitespace. */
  method LSkip(s: string, i: nat) returns (j: nat)
    requires i <= |s|
    ensures j == SkipSpace(s, i)
  {
    j := i;
    while j < |s| && IsSpace(s[j])
      invariant i <= j <= |s|
      invariant SkipSpace(s, j) == SkipSpace(s, i)
    {
      j := j + 1;
    }
  }

  /** parse_line, walking an index through the trimmed copy of the line. */
  method ParseLine(line: string) returns (r: Option<AchDef>)
    ensures r == LineDef(line)
  {
    var buf := CStr(line);
    var n := RStrip(buf);
    r := ParseBuffer(buf[..n]);
  }

  /** The body of parse_line after the copy has been right-stripped. */
  method ParseBuffer(buf: string) returns (r: Option<AchDef>)
    ensures r == ParseTrimmed(buf)
  {
    var s := LSkip(buf, 0);
    if s == |buf| || buf[s] == '#' || (s + 1 < |buf| && buf[s] == '/' && buf[s + 1] == '/') {
      return None;
    }
    if !HasKeyword(buf, s) {
      return None;
    }
    s := LSkip(buf, s + |KEYWORD|);
    r := ParseFields(buf, s);
  }

  /** The rest of parse_line: the id at s, then the quoted title, then the memaddr. */
  method ParseFields(buf: string, s: nat) returns (r: Option<AchDef>)
    requires s <= |buf|
    ensures r == ParseId(buf, s)
  {
    ghost var rest := ParseId(buf, s);
    var end := DigitsEnd(buf, s);
    if end == s {
      return None;
    }
    var id := StrtoulU32(buf[s..end]);
    var q := LSkip(buf, end);
    assert rest == ParseTitle(buf, id, q);
    if q == |buf| || buf[q] != '"' {
      return None;
    }
    var t := q + 1;
    var t0 := t;
    while t < |buf| && buf[t] != '"'
      invariant t0 <= t <= |buf|
      invariant QuoteEnd(buf, t) == QuoteEnd(buf, t0)
    {
      t := t + 1;
    }
    if t == |buf| {
      return None;
    }
    var title := buf[t0..t];
    var m := LSkip(buf, t + 1);
    assert rest == ParseMemaddr(buf, id, title, m);
    if m == |buf| {
      return None;
    }
    r := Some(AchDef(id, title, buf[m..]));
  }

  /** Capacities the loader's array can have: 16, 32, 64, ... */
  predicate IsCapacity(cap: nat)
  {
    cap == 16 || (cap > 16 && cap % 2 == 0 && IsCapacity(cap / 2))
  }

  /** mmr_ach_list_t: the loaded definitions, items[0..count). */
  class AchList {
    var items: array<AchDef>
    var count: nat

    ghost predicate Valid()
      reads this
    {
      count <= items.Length
    }

    function Contents(): seq<AchDef>
      reads this, items
      requires Valid()
    {
      items[..count]
    }

    constructor (items: array<AchDef>, count: nat)
      requires count <= items.Length
      ensures this.items == items && this.count == count && Valid()
    {
      this.items := items;
      this.count := count;
    }

    /** mmr_ach_free: release the array; the list is empty afterwards. */
    method Free()
      modifies this
      ensures Valid() && items.Length == 0 && Contents() == []
    {
      items := new AchDef[0];
      count := 0;
    }
  }

  /** The definitions a parse result contributes: one or none. */
  function Opt(r: Option<AchDef>): seq<AchDef>
  {
    if r.Some? then [r.value] else []
  }

  /** The definitions of one more line, appended to those of the lines before it. */
  lemma AcceptedStep(lines: seq<string>, i: nat, r: Option<AchDef>)
    requires i < |lines| && r == LineDef(lines[i])
    ensures Accepted(lines[..i + 1]) == Accepted(lines[..i]) + Opt(r)
  {
    assert lines[..i + 1][..i] == lines[..i];
  }

  /**
   * One append of the loader: grow the array (16 slots first, then double)
   * when it is full, then store def at index count.
   */
  method Append(items: array<AchDef>, count: nat, def: AchDef) returns (nitems: array<AchDef>)
    requires count <= items.Length
    requires count == 0 ==> items.Length == 0
    requires count > 0 ==> IsCapacity(items.Length) && (items.Length == 16 || items.Length < 2 * count)
    modifies items
    ensures nitems == items || fresh(nitems)
    ensures count + 1 <= nitems.Length
    ensures nitems[..count + 1] == old(items[..count]) + [def]
    ensures IsCapacity(nitems.Length) && (nitems.Length == 16 || nitems.Length < 2 * (count + 1))
  {
    nitems := items;
    if count == items.Length {
      var ncap := if count == 0 then 16 else count * 2;
      assert count > 0 ==> ncap / 2 == count;
      nitems := new AchDef[ncap](_ => def);
      forall k | 0 <= k < count {
        nitems[k] := items[k];
      }
    }
    nitems[count] := def;
    assert nitems[..count + 1] == nitems[..count] + [def];
  }

  /** One iteration of the loader's loop: parse line i and append its definition, if any. */
  method LoadLine(lines: seq<string>, i: nat, items: array<AchDef>, count: nat) returns (nitems: array<AchDef>, ncount: nat)
    requires i < |lines| && count <= items.Length
    requires items[..count] == Accepted(lines[..i])
    requires count == 0 ==> items.Length == 0
    requires count > 0 ==> IsCapacity(items.Length) && (items.Length == 16 || items.Length < 2 * count)
    modifies items
    ensures nitems == items || fresh(nitems)
    ensures ncount <= nitems.Length
    ensures nitems[..ncount] == Accepted(lines[..i + 1])
    ensures ncount == 0 ==> nitems.Length == 0
    ensures ncount > 0 ==> IsCapacity(nitems.Length) && (nitems.Length == 16 || nitems.Length < 2 * ncount)
  {
    var def := ParseLine(lines[i]);
    AcceptedStep(lines, i, def);
    nitems, ncount := items, count;
    if def.Some? {
      nitems := Append(items, count, def.value);
      ncount := count + 1;
    }
  }

  /** The loop of mmr_ach_load_file over the lines of an opened file. */
  method LoadLines(lines: seq<string>) returns (items: array<AchDef>, count: nat)
    ensures fresh(items) && count <= items.Length
    ensures items[..count] == Accepted(lines)
    ensures count == 0 ==> items.Length == 0
    ensures count > 0 ==> IsCapacity(items.Length) && (items.Length == 16 || items.Length < 2 * count)
  {
    items := new AchDef[0];
    count := 0;
    var i := 0;
    while i < |lines|
      invariant 0 <= i <= |lines|
      invariant fresh(items) && count <= items.Length
      invariant items[..count] == Accepted(lines[..i])
      invariant count == 0 ==> items.Length == 0
      invariant count > 0 ==> IsCapacity(items.Length) && (items.Length == 16 || items.Length < 2 * count)
    {
      items, count := LoadLine(lines, i, items, count);
      i := i + 1;
    }
    assert lines[..i] == lines;
  }

  /**
   * mmr_ach_load_file. `file` is the file's lines as fgets returns them, or
   * None when fopen fails. On success the list holds the accepted lines'
   * definitions in file order, in an array of a doubling capacity.
   */
  method LoadFile(file: Option<seq<string>>) returns (ok: bool, list: AchList)
    ensures ok <==> file.Some?
    ensures fresh(list) && list.Valid()
    ensures list.Contents() == if ok then Accepted(file.value) else []
    ensures list.count == 0 ==> list.items.Length == 0
    ensures list.count > 0 ==> IsCapacity(list.items.Length) && (list.items.Length == 16 || list.items.Length < 2 * list.count)
  {
    if file.None? {
      var empty := new AchDef[0];
      list := new AchList(empty, 0);
      return false, list;
    }
    var items, count := LoadLines(file.value);
    list := new AchList(items, count);
    ok := true;
  }
}
