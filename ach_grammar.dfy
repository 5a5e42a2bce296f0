/**
 * The line grammar of the achievement loader (daemon/ach_load.c, parse_line),
 * stated about `AchLoad.LineDef`: every well-formed definition written out
 * with any whitespace the grammar allows parses back to itself, a parse
 * always yields a well-formed definition, and blank lines, comments and each
 * kind of malformed line are rejected.
 *
 * The proofs go in two layers: "stage" lemmas about a buffer b given only
 * the offsets where parse_line's scans stop, and "offset" lemmas that
 * compute those stops for a line assembled from its fields.
 */
module AchGrammar {
  import opened Abi
  import opened Wrappers
  import opened AchLoad

  function DigitChar(k: nat): (c: char)
    requires k < 10
    ensures IsDigit(c) && DigitValue(c) == k
  {
    ('0' as int + k) as char
  }

  /** The canonical decimal spelling of n, the inverse of DecValue. */
  function Dec(n: nat): (r: string)
    ensures r != [] && AllDigits(r) && DecValue(r) == n
  {
    var r := (if n < 10 then [] else Dec(n / 10)) + [DigitChar(n % 10)];
    assert r[..|r| - 1] == (if n < 10 then [] else Dec(n / 10));
    r
  }

  /** An id written in decimal reads back as itself through strtoul and the 32-bit cast. */
  lemma StrtoulDec(id: u32)
    ensures StrtoulU32(Dec(id)) == id
  {
  }

  /**
   * A well-formed definition written out as a line: optional leading
   * whitespace, the keyword, at least one whitespace character, the id,
   * optional whitespace, the quoted title, optional whitespace, the memaddr
   * and optional trailing whitespace (such as the newline fgets keeps).
   */
  function Render(ws0: string, sep1: string, sep2: string, sep3: string, d: AchDef, ws4: string): string
  {
    ws0 + KEYWORD + sep1 + Dec(d.id) + sep2 + "\"" + d.title + "\"" + sep3 + d.memaddr + ws4
  }

  lemma {:induction false} SpaceNoNul(w: string)
    requires AllSpace(w)
    ensures '\0' !in w
  {
  }

  lemma {:induction false} CStrNoNul(s: string)
    requires '\0' !in s
    ensures CStr(s) == s
  {
    if s != [] {
      assert '\0' !in s[1..];
      CStrNoNul(s[1..]);
    }
  }

  /** rstrip removes exactly a whitespace tail that follows a non-whitespace character. */
  lemma {:induction false} TrimExact(p: string, w: string)
    requires AllSpace(w) && (p == [] || !IsSpace(p[|p| - 1]))
    ensures TrimEnd(p + w) == p
  {
    var s := p + w;
    var r := TrimEnd(s);
    assert s[..|p|] == p;
  }

  /** rstrip never cuts into a prefix that ends in a non-whitespace character. */
  lemma {:induction false} TrimKeepsPrefix(p: string, x: string)
    requires p != [] && !IsSpace(p[|p| - 1])
    ensures |TrimEnd(p + x)| >= |p| && TrimEnd(p + x)[..|p|] == p
  {
    var s := p + x;
    var r := TrimEnd(s);
    assert s[..|p|] == p;
  }

  /** The memaddr stage yields a well-formed definition from a buffer without NUL and without trailing whitespace. */
  lemma {:induction false} MemaddrWellFormed(b: string, id: u32, title: string, m: nat)
    requires m <= |b| && '\0' !in b && (b == [] || !IsSpace(b[|b| - 1]))
    requires m == |b| || !IsSpace(b[m])
    requires '"' !in title && '\0' !in title
    ensures ParseMemaddr(b, id, title, m).Some? ==> WellFormed(ParseMemaddr(b, id, title, m).value)
  {
    if m < |b| {
      assert b[m..][|b| - m - 1] == b[|b| - 1];
    }
  }

  lemma {:induction false} TitleWellFormed(b: string, id: u32, q: nat)
    requires q <= |b| && '\0' !in b && (b == [] || !IsSpace(b[|b| - 1]))
    ensures ParseTitle(b, id, q).Some? ==> WellFormed(ParseTitle(b, id, q).value)
  {
    if q < |b| && b[q] == '"' {
      var t := QuoteEnd(b, q + 1);
      if t < |b| {
        var title := b[q + 1..t];
        assert '"' !in title;
        MemaddrWellFormed(b, id, title, SkipSpace(b, t + 1));
      }
    }
  }

  lemma {:induction false} IdWellFormed(b: string, p: nat)
    requires p <= |b| && '\0' !in b && (b == [] || !IsSpace(b[|b| - 1]))
    ensures ParseId(b, p).Some? ==> WellFormed(ParseId(b, p).value)
  {
    var e := DigitsEnd(b, p);
    if e != p {
      TitleWellFormed(b, StrtoulU32(b[p..e]), SkipSpace(b, e));
    }
  }

  lemma {:induction false} TrimmedWellFormed(b: string)
    requires '\0' !in b && (b == [] || !IsSpace(b[|b| - 1]))
    ensures ParseTrimmed(b).Some? ==> WellFormed(ParseTrimmed(b).value)
  {
    var s := SkipSpace(b, 0);
    if s < |b| && HasKeyword(b, s) {
      IdWellFormed(b, SkipSpace(b, s + |KEYWORD|));
    }
  }

  /** A parse of a line gives a definition of the shape the grammar allows. */
  lemma {:induction false} LineDefWellFormed(line: string)
    ensures LineDef(line).Some? ==> WellFormed(LineDef(line).value)
  {
    var c := CStr(line);
    var b := TrimEnd(c);
    assert '\0' !in b by {
      assert b == c[..|b|];
    }
    TrimmedWellFormed(b);
  }

  /** lskip over a whitespace run w stops at the character after it. */
  lemma {:induction false} SkipRun(x: string, w: string, y: string)
    requires AllSpace(w) && (y == [] || !IsSpace(y[0]))
    ensures SkipSpace(x + w + y, |x|) == |x| + |w|
  {
    var b := x + w + y;
    assert forall k :: |x| <= k < |x| + |w| ==> b[k] == w[k - |x|];
    assert |x| + |w| < |b| ==> b[|x| + |w|] == y[0];
  }

  /** strtoul over a digit run ds stops at the character after it. */
  lemma {:induction false} DigitsRun(x: string, ds: string, y: string)
    requires AllDigits(ds) && (y == [] || !IsDigit(y[0]))
    ensures DigitsEnd(x + ds + y, |x|) == |x| + |ds|
    ensures (x + ds + y)[|x|..|x| + |ds|] == ds
  {
    var b := x + ds + y;
    assert forall k :: |x| <= k < |x| + |ds| ==> b[k] == ds[k - |x|];
    assert |x| + |ds| < |b| ==> b[|x| + |ds|] == y[0];
  }

  /** The title scan over a quote-free run t stops at the quote after it. */
  lemma {:induction false} QuoteRun(x: string, t: string, y: string)
    requires '"' !in t && y != [] && y[0] == '"'
    ensures QuoteEnd(x + t + y, |x|) == |x| + |t|
    ensures (x + t + y)[|x|..|x| + |t|] == t
  {
    var b := x + t + y;
    assert forall k :: |x| <= k < |x| + |t| ==> b[k] == t[k - |x|];
    assert b[|x| + |t|] == y[0];
  }

  /** The keyword stage of parse_line, on a buffer whose keyword sits at o1 and whose id starts at p. */
  lemma {:induction false} KeywordStage(b: string, o1: nat, p: nat)
    requires o1 < |b| && SkipSpace(b, 0) == o1 && b[o1] == 'a' && HasKeyword(b, o1)
    requires SkipSpace(b, o1 + |KEYWORD|) == p
    ensures ParseTrimmed(b) == ParseId(b, p)
  {
  }

  /** The id stage of parse_line, on a buffer whose id digits are [p, e) and whose title quote is at q. */
  lemma {:induction false} IdStage(b: string, p: nat, e: nat, id: u32, q: nat)
    requires p < e <= |b| && DigitsEnd(b, p) == e && AllDigits(b[p..e]) && StrtoulU32(b[p..e]) == id
    requires SkipSpace(b, e) == q
    ensures ParseId(b, p) == ParseTitle(b, id, q)
  {
  }

  /** The title and memaddr stages of parse_line, on a buffer with quotes at q and t and the memaddr from m. */
  lemma {:induction false} TitleStage(b: string, id: u32, q: nat, t: nat, m: nat)
    requires q < t < m < |b| && b[q] == '"' && QuoteEnd(b, q + 1) == t && SkipSpace(b, t + 1) == m
    ensures ParseTitle(b, id, q) == Some(AchDef(id, b[q + 1..t], b[m..]))
  {
  }

  /** A rendered line without its trailing whitespace: what parse_line's rstrip leaves of it. */
  function RenderBody(ws0: string, sep1: string, sep2: string, sep3: string, d: AchDef): string
  {
    ws0 + KEYWORD + sep1 + Dec(d.id) + sep2 + "\"" + d.title + "\"" + sep3 + d.memaddr
  }

  lemma {:induction false} RenderNoNul(ws0: string, sep1: string, sep2: string, sep3: string, d: AchDef, ws4: string)
    requires AllSpace(ws0) && AllSpace(sep1) && AllSpace(sep2) && AllSpace(sep3) && AllSpace(ws4)
    requires WellFormed(d)
    ensures '\0' !in RenderBody(ws0, sep1, sep2, sep3, d) + ws4
  {
    SpaceNoNul(ws0); SpaceNoNul(sep1); SpaceNoNul(sep2); SpaceNoNul(sep3); SpaceNoNul(ws4);
    var D := Dec(d.id);
    assert '\0' !in D;
    var head := ws0 + KEYWORD + sep1 + D + sep2;
    var tail := "\"" + d.title + "\"" + sep3 + d.memaddr;
    assert '\0' !in head;
    assert '\0' !in tail;
    assert RenderBody(ws0, sep1, sep2, sep3, d) == head + tail;
  }

  lemma {:induction false} RenderTrimmed(ws0: string, sep1: string, sep2: string, sep3: string, d: AchDef, ws4: string)
    requires AllSpace(ws0) && AllSpace(sep1) && AllSpace(sep2) && AllSpace(sep3) && AllSpace(ws4)
    requires WellFormed(d)
    ensures TrimEnd(CStr(Render(ws0, sep1, sep2, sep3, d, ws4))) == RenderBody(ws0, sep1, sep2, sep3, d)
  {
    var P := RenderBody(ws0, sep1, sep2, sep3, d);
    assert Render(ws0, sep1, sep2, sep3, d, ws4) == P + ws4;
    RenderNoNul(ws0, sep1, sep2, sep3, d, ws4);
    CStrNoNul(P + ws4);
    assert P[|P| - 1] == d.memaddr[|d.memaddr| - 1];
    TrimExact(P, ws4);
  }

  /** The keyword of a rendered line sits after ws0 and the id starts after sep1. */
  lemma {:induction false} KeywordOffsets(ws0: string, sep1: string, z: string)
    requires AllSpace(ws0) && AllSpace(sep1) && sep1 != [] && z != [] && !IsSpace(z[0])
    ensures var b := ws0 + KEYWORD + sep1 + z;
            && SkipSpace(b, 0) == |ws0| && b[|ws0|] == 'a' && HasKeyword(b, |ws0|)
            && SkipSpace(b, |ws0| + |KEYWORD|) == |ws0| + |KEYWORD| + |sep1|
  {
    var b := ws0 + KEYWORD + sep1 + z;
    assert b == ws0 + (KEYWORD + sep1 + z);
    SkipRun([], ws0, KEYWORD + sep1 + z);
    assert b[|ws0|..|ws0| + |KEYWORD|] == KEYWORD;
    assert b[|ws0| + |KEYWORD|] == sep1[0];
    SkipRun(ws0 + KEYWORD, sep1, z);
  }

  /** The id digits of a line and the whitespace after them. */
  lemma {:induction false} IdOffsets(x: string, ds: string, sep2: string, y: string)
    requires AllDigits(ds) && AllSpace(sep2) && y != [] && !IsSpace(y[0]) && (sep2 != [] || !IsDigit(y[0]))
    ensures var b := x + ds + sep2 + y;
            && DigitsEnd(b, |x|) == |x| + |ds| && b[|x|..|x| + |ds|] == ds
            && SkipSpace(b, |x| + |ds|) == |x| + |ds| + |sep2| && b[|x| + |ds| + |sep2|] == y[0]
  {
    var b := x + ds + sep2 + y;
    assert b == x + ds + (sep2 + y);
    DigitsRun(x, ds, sep2 + y);
    SkipRun(x + ds, sep2, y);
  }

  /** The title of a rendered line. */
  lemma {:induction false} TitleOffsets(z: string, t: string, y: string)
    requires '"' !in t && y != [] && y[0] == '"'
    ensures var b := z + "\"" + t + y;
            QuoteEnd(b, |z| + 1) == |z| + 1 + |t| && b[|z| + 1..|z| + 1 + |t|] == t
  {
    QuoteRun(z + "\"", t, y);
  }

  /** The whitespace of a rendered line between its title and its memaddr. */
  lemma {:induction false} MemaddrOffsets(z: string, sep3: string, m: string)
    requires AllSpace(sep3) && m != [] && !IsSpace(m[0])
    ensures var b := z + sep3 + m;
            SkipSpace(b, |z|) == |z| + |sep3| && b[|z| + |sep3|..] == m
  {
    SkipRun(z, sep3, m);
    var b := z + sep3 + m;
    assert b[|b| - |m|..] == m;
  }

  /** The offsets of the fields in a rendered line without its trailing whitespace. */
  function IdStart(ws0: string, sep1: string): nat
  {
    |ws0| + |KEYWORD| + |sep1|
  }

  function TitleQuote(ws0: string, sep1: string, sep2: string, d: AchDef): nat
  {
    IdStart(ws0, sep1) + |Dec(d.id)| + |sep2|
  }

  function TitleEnd(ws0: string, sep1: string, sep2: string, d: AchDef): nat
  {
    TitleQuote(ws0, sep1, sep2, d) + 1 + |d.title|
  }

  lemma {:induction false} BodyKeyword(ws0: string, sep1: string, sep2: string, sep3: string, d: AchDef)
    requires AllSpace(ws0) && AllSpace(sep1) && sep1 != []
    ensures var b := RenderBody(ws0, sep1, sep2, sep3, d);
            && |ws0| < |b| && SkipSpace(b, 0) == |ws0| && b[|ws0|] == 'a' && HasKeyword(b, |ws0|)
            && SkipSpace(b, |ws0| + |KEYWORD|) == IdStart(ws0, sep1)
  {
    var z := Dec(d.id) + sep2 + "\"" + d.title + "\"" + sep3 + d.memaddr;
    assert RenderBody(ws0, sep1, sep2, sep3, d) == ws0 + KEYWORD + sep1 + z;
    KeywordOffsets(ws0, sep1, z);
  }

  lemma {:induction false} BodyId(ws0: string, sep1: string, sep2: string, sep3: string, d: AchDef)
    requires AllSpace(sep2)
    ensures var b := RenderBody(ws0, sep1, sep2, sep3, d);
            var p := IdStart(ws0, sep1);
            var e := p + |Dec(d.id)|;
            && TitleQuote(ws0, sep1, sep2, d) < |b|
            && DigitsEnd(b, p) == e && b[p..e] == Dec(d.id)
            && SkipSpace(b, e) == TitleQuote(ws0, sep1, sep2, d) && b[TitleQuote(ws0, sep1, sep2, d)] == '"'
  {
    var x := ws0 + KEYWORD + sep1;
    var y := "\"" + d.title + "\"" + sep3 + d.memaddr;
    var b := RenderBody(ws0, sep1, sep2, sep3, d);
    assert b == x + Dec(d.id) + sep2 + y;
    assert y[0] == '"';
    IdOffsets(x, Dec(d.id), sep2, y);
    assert |x| == IdStart(ws0, sep1);
    assert |x| + |Dec(d.id)| + |sep2| == TitleQuote(ws0, sep1, sep2, d);
  }

  lemma {:induction false} BodyTitle(ws0: string, sep1: string, sep2: string, sep3: string, d: AchDef)
    requires WellFormed(d)
    ensures var b := RenderBody(ws0, sep1, sep2, sep3, d);
            var q := TitleQuote(ws0, sep1, sep2, d);
            var t := TitleEnd(ws0, sep1, sep2, d);
            && t < |b| && QuoteEnd(b, q + 1) == t && b[q + 1..t] == d.title
  {
    var z := ws0 + KEYWORD + sep1 + Dec(d.id) + sep2;
    var y := "\"" + sep3 + d.memaddr;
    assert RenderBody(ws0, sep1, sep2, sep3, d) == z + "\"" + d.title + y;
    TitleOffsets(z, d.title, y);
  }

  lemma {:induction false} BodyMemaddr(ws0: string, sep1: string, sep2: string, sep3: string, d: AchDef)
    requires AllSpace(sep3) && WellFormed(d)
    ensures var b := RenderBody(ws0, sep1, sep2, sep3, d);
            var t := TitleEnd(ws0, sep1, sep2, d);
            && t + 1 + |sep3| < |b| && SkipSpace(b, t + 1) == t + 1 + |sep3| && b[t + 1 + |sep3|..] == d.memaddr
  {
    var z := ws0 + KEYWORD + sep1 + Dec(d.id) + sep2 + "\"" + d.title + "\"";
    assert RenderBody(ws0, sep1, sep2, sep3, d) == z + sep3 + d.memaddr;
    MemaddrOffsets(z, sep3, d.memaddr);
  }

  /** Every well-formed definition, written out with any whitespace the grammar allows, parses back to itself. */
  lemma {:induction false} ParseRender(ws0: string, sep1: string, sep2: string, sep3: string, d: AchDef, ws4: string)
    requires AllSpace(ws0) && AllSpace(sep1) && sep1 != [] && AllSpace(sep2) && AllSpace(sep3) && AllSpace(ws4)
    requires WellFormed(d)
    ensures LineDef(Render(ws0, sep1, sep2, sep3, d, ws4)) == Some(d)
  {
    RenderTrimmed(ws0, sep1, sep2, sep3, d, ws4);
    BodyParses(ws0, sep1, sep2, sep3, d);
  }

  lemma {:induction false} BodyParses(ws0: string, sep1: string, sep2: string, sep3: string, d: AchDef)
    requires AllSpace(ws0) && AllSpace(sep1) && sep1 != [] && AllSpace(sep2) && AllSpace(sep3)
    requires WellFormed(d)
    ensures ParseTrimmed(RenderBody(ws0, sep1, sep2, sep3, d)) == Some(d)
  {
    BodyParsesKeyword(ws0, sep1, sep2, sep3, d);
    BodyParsesId(ws0, sep1, sep2, sep3, d);
    BodyParsesTitle(ws0, sep1, sep2, sep3, d);
  }

  lemma {:induction false} BodyParsesKeyword(ws0: string, sep1: string, sep2: string, sep3: string, d: AchDef)
    requires AllSpace(ws0) && AllSpace(sep1) && sep1 != []
    ensures var b := RenderBody(ws0, sep1, sep2, sep3, d);
            IdStart(ws0, sep1) <= |b| && ParseTrimmed(b) == ParseId(b, IdStart(ws0, sep1))
  {
    BodyKeyword(ws0, sep1, sep2, sep3, d);
    KeywordStage(RenderBody(ws0, sep1, sep2, sep3, d), |ws0|, IdStart(ws0, sep1));
  }

  lemma {:induction false} BodyParsesId(ws0: string, sep1: string, sep2: string, sep3: string, d: AchDef)
    requires AllSpace(sep2)
    ensures var b := RenderBody(ws0, sep1, sep2, sep3, d);
            && IdStart(ws0, sep1) <= |b| && TitleQuote(ws0, sep1, sep2, d) <= |b|
            && ParseId(b, IdStart(ws0, sep1)) == ParseTitle(b, d.id, TitleQuote(ws0, sep1, sep2, d))
  {
    BodyId(ws0, sep1, sep2, sep3, d);
    StrtoulDec(d.id);
    var p := IdStart(ws0, sep1);
    IdStage(RenderBody(ws0, sep1, sep2, sep3, d), p, p + |Dec(d.id)|, d.id, TitleQuote(ws0, sep1, sep2, d));
  }

  lemma {:induction false} BodyParsesTitle(ws0: string, sep1: string, sep2: string, sep3: string, d: AchDef)
    requires AllSpace(sep2) && AllSpace(sep3) && WellFormed(d)
    ensures var b := RenderBody(ws0, sep1, sep2, sep3, d);
            && TitleQuote(ws0, sep1, sep2, d) <= |b|
            && ParseTitle(b, d.id, TitleQuote(ws0, sep1, sep2, d)) == Some(d)
  {
    BodyId(ws0, sep1, sep2, sep3, d);
    BodyTitle(ws0, sep1, sep2, sep3, d);
    BodyMemaddr(ws0, sep1, sep2, sep3, d);
    var t := TitleEnd(ws0, sep1, sep2, d);
    TitleStage(RenderBody(ws0, sep1, sep2, sep3, d), d.id, TitleQuote(ws0, sep1, sep2, d), t, t + 1 + |sep3|);
  }

  // The example line of the builtin set, written out as a file line.

  const EXAMPLE_DEF := AchDef(3, "Counter Hit 5", "0xH07ED=5_0xH07EE=0")

  lemma ExampleText1()
    ensures "" + "achievement" + " " + "3" + " " == "achievement 3 "
  {
  }

  lemma ExampleText2()
    ensures "achievement 3 " + "\"" + "Counter Hit 5" + "\"" == "achievement 3 \"Counter Hit 5\""
  {
  }

  lemma ExampleText3()
    ensures "achievement 3 \"Counter Hit 5\"" + " " + "0xH07ED=5_0xH07EE=0" + "\n"
         == "achievement 3 \"Counter Hit 5\" 0xH07ED=5_0xH07EE=0\n"
  {
  }

  lemma ExampleWellFormed()
    ensures WellFormed(EXAMPLE_DEF)
  {
  }

  lemma ExampleText()
    ensures Render("", " ", " ", " ", EXAMPLE_DEF, "\n") == "achievement 3 \"Counter Hit 5\" 0xH07ED=5_0xH07EE=0\n"
  {
    assert Dec(3) == "3";
    assert Render("", " ", " ", " ", EXAMPLE_DEF, "\n")
        == "" + "achievement" + " " + "3" + " " + "\"" + "Counter Hit 5" + "\"" + " " + "0xH07ED=5_0xH07EE=0" + "\n";
    ExampleText1();
    ExampleText2();
    ExampleText3();
  }

  /** The line `achievement 3 "Counter Hit 5" 0xH07ED=5_0xH07EE=0` parses to id 3, its title and its memaddr, verbatim. */
  lemma ParseExample()
    ensures LineDef("achievement 3 \"Counter Hit 5\" 0xH07ED=5_0xH07EE=0\n")
         == Some(AchDef(3, "Counter Hit 5", "0xH07ED=5_0xH07EE=0"))
  {
    ExampleWellFormed();
    ExampleText();
    ParseRender("", " ", " ", " ", EXAMPLE_DEF, "\n");
  }

  // Rejection: the lines parse_line turns down.

  /** rstrip of a line whose tail x starts with a non-whitespace character only shortens x. */
  lemma {:induction false} TrimAppend(p: string, x: string)
    requires x != [] && !IsSpace(x[0])
    ensures TrimEnd(p + x) == p + TrimEnd(x)
    ensures TrimEnd(x) != [] && TrimEnd(x)[0] == x[0]
    decreases |x|
  {
    if IsSpace(x[|x| - 1]) {
      var x' := x[..|x| - 1];
      assert (p + x)[..|p + x| - 1] == p + x';
      TrimAppend(p, x');
    }
  }

  /** rstrip never reaches back past a non-whitespace character. */
  lemma {:induction false} TrimAfter(p: string, x: string)
    requires p != [] && !IsSpace(p[|p| - 1])
    ensures TrimEnd(p + x) == p + TrimEnd(x)
    decreases |x|
  {
    if x == [] {
      assert p + x == p;
      assert p + TrimEnd(x) == p;
    } else if IsSpace(x[|x| - 1]) {
      var x' := x[..|x| - 1];
      assert (p + x)[..|p + x| - 1] == p + x';
      TrimAfter(p, x');
    }
  }

  lemma {:induction false} HeadNoNul(ws: string, sep1: string, ds: string, sep2: string)
    requires AllSpace(ws) && AllSpace(sep1) && AllDigits(ds) && AllSpace(sep2)
    ensures '\0' !in ws + KEYWORD + sep1 + ds + sep2
  {
    SpaceNoNul(ws); SpaceNoNul(sep1); SpaceNoNul(sep2);
    assert '\0' !in ds;
  }

  /** The first non-whitespace text c of a line `ws c r`. */
  lemma {:induction false} LeadOffsets(ws: string, c: string, r: string)
    requires AllSpace(ws) && c != [] && !IsSpace(c[0])
    ensures var b := ws + c + r;
            && SkipSpace(b, 0) == |ws|
            && (forall k :: 0 <= k < |c| ==> b[|ws| + k] == c[k])
            && (r != [] ==> b[|ws| + |c|] == r[0])
  {
    var b := ws + c + r;
    assert b == [] + ws + (c + r);
    SkipRun([], ws, c + r);
  }

  /** The quoted title of a line `h "t"` and where its scan stops. */
  lemma {:induction false} QuotedOffsets(h: string, t: string)
    requires '"' !in t
    ensures var b := h + "\"" + t + "\"";
            && b[..|h|] == h && b[|h|] == '"' && QuoteEnd(b, |h| + 1) == |b| - 1
  {
    QuoteRun(h + "\"", t, "\"");
  }

  /** The open title of a line `h "t` and where its scan stops. */
  lemma {:induction false} OpenQuotedOffsets(h: string, t: string)
    requires '"' !in t
    ensures var b := h + "\"" + t;
            && b[..|h|] == h && b[|h|] == '"' && QuoteEnd(b, |h| + 1) == |b|
  {
    var b := h + "\"" + t;
    assert forall k :: |h| + 1 <= k < |b| ==> b[k] == t[k - |h| - 1];
  }

  lemma {:induction false} SplitOffsets(h: string, r: string)
    requires r != []
    ensures (h + r)[..|h|] == h && (h + r)[|h|] == r[0]
  {
  }

  lemma {:induction false} CommentStage(b: string, s: nat)
    requires s < |b| && SkipSpace(b, 0) == s
    requires b[s] == '#' || (s + 1 < |b| && b[s] == '/' && b[s + 1] == '/')
    ensures ParseTrimmed(b) == None
  {
  }

  lemma {:induction false} NoKeywordStage(b: string, s: nat)
    requires s < |b| && SkipSpace(b, 0) == s && b[s] == 'a' && !HasKeyword(b, s)
    ensures ParseTrimmed(b) == None
  {
  }

  lemma {:induction false} IdNoneStage(b: string, p: nat)
    requires p < |b| && !IsDigit(b[p])
    ensures ParseId(b, p) == None
  {
  }

  lemma {:induction false} TitleNoQuoteStage(b: string, id: u32, q: nat)
    requires q < |b| && b[q] != '"'
    ensures ParseTitle(b, id, q) == None
  {
  }

  lemma {:induction false} TitleOpenStage(b: string, id: u32, q: nat)
    requires q < |b| && b[q] == '"' && QuoteEnd(b, q + 1) == |b|
    ensures ParseTitle(b, id, q) == None
  {
  }

  lemma {:induction false} MemaddrNoneStage(b: string, id: u32, q: nat, t: nat)
    requires q < t < |b| && b[q] == '"' && QuoteEnd(b, q + 1) == t && SkipSpace(b, t + 1) == |b|
    ensures ParseTitle(b, id, q) == None
  {
  }

  /** `ws achievement sep1 ds sep2`: the part of a line that comes before its title. */
  function Head(ws: string, sep1: string, ds: string, sep2: string): string
  {
    ws + KEYWORD + sep1 + ds + sep2
  }

  /** Where parse_line's scans stop in a buffer that starts with a Head. */
  lemma {:induction false} HeadOffsets(b: string, ws: string, sep1: string, ds: string, sep2: string)
    requires AllSpace(ws) && AllSpace(sep1) && sep1 != [] && AllDigits(ds) && ds != [] && AllSpace(sep2)
    requires var h := Head(ws, sep1, ds, sep2);
             |h| < |b| && b[..|h|] == h && !IsSpace(b[|h|]) && (sep2 != [] || !IsDigit(b[|h|]))
    ensures var p := |ws| + |KEYWORD| + |sep1|;
            && p + |ds| <= |Head(ws, sep1, ds, sep2)|
            && SkipSpace(b, 0) == |ws| && b[|ws|] == 'a' && HasKeyword(b, |ws|)
            && SkipSpace(b, |ws| + |KEYWORD|) == p
            && DigitsEnd(b, p) == p + |ds| && b[p..p + |ds|] == ds
            && SkipSpace(b, p + |ds|) == |Head(ws, sep1, ds, sep2)|
  {
    var h := Head(ws, sep1, ds, sep2);
    var y := b[|h|..];
    assert b == h + y;
    assert y[0] == b[|h|];
    var x := ws + KEYWORD + sep1;
    assert b == ws + KEYWORD + sep1 + (ds + sep2 + y);
    KeywordOffsets(ws, sep1, ds + sep2 + y);
    assert b == x + ds + sep2 + y;
    IdOffsets(x, ds, sep2, y);
  }

  /** The keyword and id stages of a line that starts with a Head, whatever follows it. */
  lemma {:induction false} HeadStages(b: string, ws: string, sep1: string, ds: string, sep2: string)
    requires AllSpace(ws) && AllSpace(sep1) && sep1 != [] && AllDigits(ds) && ds != [] && AllSpace(sep2)
    requires var h := Head(ws, sep1, ds, sep2);
             |h| < |b| && b[..|h|] == h && !IsSpace(b[|h|]) && (sep2 != [] || !IsDigit(b[|h|]))
    ensures ParseTrimmed(b) == ParseTitle(b, StrtoulU32(ds), |Head(ws, sep1, ds, sep2)|)
  {
    HeadOffsets(b, ws, sep1, ds, sep2);
    var p := |ws| + |KEYWORD| + |sep1|;
    var e := p + |ds|;
    var q := |Head(ws, sep1, ds, sep2)|;
    var id := StrtoulU32(ds);
    assert b[p..e] == ds;
    assert ParseTrimmed(b) == ParseId(b, p) by {
      KeywordStage(b, |ws|, p);
    }
    assert ParseId(b, p) == ParseTitle(b, id, q) by {
      IdStage(b, p, e, id, q);
    }
  }

  /** A line of whitespace only (a blank line) defines nothing. */
  lemma {:induction false} BlankRejected(line: string)
    requires AllSpace(line)
    ensures LineDef(line) == None
  {
    SpaceNoNul(line);
    CStrNoNul(line);
    assert line == [] + line;
    TrimExact([], line);
  }

  /** A line whose first non-whitespace characters are a comment marker, `#` or `//`, is a comment. */
  lemma {:induction false} CommentRejected(ws: string, mark: string, rest: string)
    requires AllSpace(ws) && (mark == "#" || mark == "//") && '\0' !in rest
    ensures LineDef(ws + mark + rest) == None
  {
    SpaceNoNul(ws);
    CStrNoNul(ws + mark + rest);
    TrimAfter(ws + mark, rest);
    LeadOffsets(ws, mark, TrimEnd(rest));
    CommentStage(ws + mark + TrimEnd(rest), |ws|);
  }

  /** The keyword must be followed by whitespace: `achievementX ...` and a bare `achievement` are rejected. */
  lemma {:induction false} KeywordUnseparated(ws: string, rest: string)
    requires AllSpace(ws) && '\0' !in rest && (rest == [] || !IsSpace(rest[0]))
    ensures LineDef(ws + KEYWORD + rest) == None
  {
    SpaceNoNul(ws);
    CStrNoNul(ws + KEYWORD + rest);
    TrimAfter(ws + KEYWORD, rest);
    var r := TrimEnd(rest);
    assert r != [] ==> r[0] == rest[0];
    LeadOffsets(ws, KEYWORD, r);
    NoKeywordStage(ws + KEYWORD + r, |ws|);
  }

  /** After the keyword's whitespace there must be a decimal digit. */
  lemma {:induction false} IdMissing(ws: string, sep1: string, rest: string)
    requires AllSpace(ws) && AllSpace(sep1) && sep1 != []
    requires '\0' !in rest && rest != [] && !IsSpace(rest[0]) && !IsDigit(rest[0])
    ensures LineDef(ws + KEYWORD + sep1 + rest) == None
  {
    SpaceNoNul(ws); SpaceNoNul(sep1);
    CStrNoNul(ws + KEYWORD + sep1 + rest);
    TrimAppend(ws + KEYWORD + sep1, rest);
    var r := TrimEnd(rest);
    KeywordOffsets(ws, sep1, r);
    KeywordStage(ws + KEYWORD + sep1 + r, |ws|, |ws| + |KEYWORD| + |sep1|);
    SplitOffsets(ws + KEYWORD + sep1, r);
    IdNoneStage(ws + KEYWORD + sep1 + r, |ws| + |KEYWORD| + |sep1|);
  }

  /** After the id and optional whitespace there must be the title's opening quote. */
  lemma {:induction false} TitleMissing(ws: string, sep1: string, ds: string, sep2: string, rest: string)
    requires AllSpace(ws) && AllSpace(sep1) && sep1 != [] && AllDigits(ds) && ds != [] && AllSpace(sep2)
    requires '\0' !in rest && rest != [] && !IsSpace(rest[0]) && (sep2 != [] || !IsDigit(rest[0])) && rest[0] != '"'
    ensures LineDef(Head(ws, sep1, ds, sep2) + rest) == None
  {
    var h := Head(ws, sep1, ds, sep2);
    HeadNoNul(ws, sep1, ds, sep2);
    CStrNoNul(h + rest);
    TrimAppend(h, rest);
    var b := h + TrimEnd(rest);
    SplitOffsets(h, TrimEnd(rest));
    HeadStages(b, ws, sep1, ds, sep2);
    TitleNoQuoteStage(b, StrtoulU32(ds), |h|);
  }

  /** A title whose closing quote is missing is rejected. */
  lemma {:induction false} TitleUnterminated(ws: string, sep1: string, ds: string, sep2: string, t: string)
    requires AllSpace(ws) && AllSpace(sep1) && sep1 != [] && AllDigits(ds) && ds != [] && AllSpace(sep2)
    requires '"' !in t && '\0' !in t
    ensures LineDef(Head(ws, sep1, ds, sep2) + "\"" + t) == None
  {
    var h := Head(ws, sep1, ds, sep2);
    HeadNoNul(ws, sep1, ds, sep2);
    CStrNoNul(h + "\"" + t);
    TrimAfter(h + "\"", t);
    var t' := TrimEnd(t);
    assert '"' !in t' by {
      assert t' == t[..|t'|];
    }
    OpenQuotedOffsets(h, t');
    var b := h + "\"" + t';
    HeadStages(b, ws, sep1, ds, sep2);
    TitleOpenStage(b, StrtoulU32(ds), |h|);
  }

  /** A line that ends right after the title's closing quote (and whitespace) has no memaddr and is rejected. */
  lemma {:induction false} MemaddrMissing(ws: string, sep1: string, ds: string, sep2: string, t: string, ws3: string)
    requires AllSpace(ws) && AllSpace(sep1) && sep1 != [] && AllDigits(ds) && ds != [] && AllSpace(sep2)
    requires '"' !in t && '\0' !in t && AllSpace(ws3)
    ensures LineDef(Head(ws, sep1, ds, sep2) + "\"" + t + "\"" + ws3) == None
  {
    var h := Head(ws, sep1, ds, sep2);
    var b := h + "\"" + t + "\"";
    HeadNoNul(ws, sep1, ds, sep2);
    SpaceNoNul(ws3);
    CStrNoNul(b + ws3);
    TrimExact(b, ws3);
    QuotedOffsets(h, t);
    HeadStages(b, ws, sep1, ds, sep2);
    MemaddrNoneStage(b, StrtoulU32(ds), |h|, |b| - 1);
  }

  // The file level: which definitions ach_load_file keeps.

  /** Loading a file split in two keeps the definitions of the first part followed by those of the second. */
  lemma {:induction false} AcceptedAppend(a: seq<string>, b: seq<string>)
    ensures Accepted(a + b) == Accepted(a) + Accepted(b)
    decreases |b|
  {
    if b == [] {
      assert a + b == a;
    } else {
      var b' := b[..|b| - 1];
      assert (a + b)[..|a + b| - 1] == a + b';
      assert (a + b)[|a + b| - 1] == b[|b| - 1];
      AcceptedAppend(a, b');
    }
  }

  /** Every kept definition is well formed and is the parse of some line of the file. */
  lemma {:induction false} AcceptedSound(lines: seq<string>)
    ensures forall d :: d in Accepted(lines) ==>
              WellFormed(d) && exists i :: 0 <= i < |lines| && LineDef(lines[i]) == Some(d)
  {
    if lines != [] {
      var n := |lines| - 1;
      var init := lines[..n];
      AcceptedSound(init);
      LineDefWellFormed(lines[n]);
      forall d | d in Accepted(lines)
        ensures WellFormed(d) && exists i :: 0 <= i < |lines| && LineDef(lines[i]) == Some(d)
      {
        if d in Accepted(init) {
          var i :| 0 <= i < |init| && LineDef(init[i]) == Some(d);
          assert lines[i] == init[i];
        } else {
          assert LineDef(lines[n]) == Some(d);
        }
      }
    }
  }

  /** Every line that parses has its definition kept. */
  lemma {:induction false} AcceptedComplete(lines: seq<string>, i: nat, d: AchDef)
    requires i < |lines| && LineDef(lines[i]) == Some(d)
    ensures d in Accepted(lines)
    decreases |lines|
  {
    var n := |lines| - 1;
    var r := LineDef(lines[n]);
    AcceptedStep(lines, n, r);
    assert lines[..n + 1] == lines;
    var init := Accepted(lines[..n]);
    assert Accepted(lines) == init + Opt(r);
    if i < n {
      assert lines[..n][i] == lines[i];
      AcceptedComplete(lines[..n], i, d);
      assert d in init;
    } else {
      assert i == n;
      assert r == Some(d);
    }
  }

  /** One well-formed line followed by a rejected one yields exactly the first line's definition. */
  lemma {:induction false} AcceptedGoodThenBad(good: string, bad: string, d: AchDef)
    requires LineDef(good) == Some(d) && LineDef(bad) == None
    ensures Accepted([good, bad]) == [d]
  {
    assert [good, bad][..1] == [good];
    assert [good][..0] == [];
  }

  /** A commented-out definition is skipped. */
  lemma CommentExample()
    ensures LineDef("// achievement 9 \"x\" y") == None
  {
    assert "" + "//" + " achievement 9 \"x\" y" == "// achievement 9 \"x\" y";
    assert '\0' !in " achievement 9 \"x\" y";
    CommentRejected("", "//", " achievement 9 \"x\" y");
  }

  /** A file holding the example line and a commented-out line loads exactly the example's definition. */
  lemma FileExample()
    ensures Accepted(["achievement 3 \"Counter Hit 5\" 0xH07ED=5_0xH07EE=0\n", "// achievement 9 \"x\" y"])
         == [AchDef(3, "Counter Hit 5", "0xH07ED=5_0xH07EE=0")]
  {
    ParseExample();
    CommentExample();
    AcceptedGoodThenBad("achievement 3 \"Counter Hit 5\" 0xH07ED=5_0xH07EE=0\n", "// achievement 9 \"x\" y", EXAMPLE_DEF);
  }
}
