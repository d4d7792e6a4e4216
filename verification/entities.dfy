/** Decoding of the five predefined entities of section 4.6 of XML 1.0
    (`&lt; &gt; &amp; &apos; &quot;`) in text content. Numeric character
    references are left as they are. */
module Entities {
  import opened Strings

  /** A string that does not contain the first character of `p` does not contain `p`. */
  lemma AbsentHead(s: string, p: string)
    requires p != [] && p[0] !in s
    ensures !Contains(s, p)
  {
    forall k: nat | k <= |s| ensures !OccursAt(s, p, k) {
      if k + |p| <= |s| {
        assert s[k..k + |p|][0] == s[k];
      }
    }
  }

  /** The decoding as the source writes it: five `replaceAll` passes, in the order
      `&lt;`, `&gt;`, `&amp;`, `&apos;`, `&quot;`. Each pass works on the output of
      the one before, so an `&` produced by the `&amp;` pass can start an `&apos;`
      or `&quot;` that the next passes then decode again. */
  function DecodeChain(s: string): (r: string)
    ensures |r| <= |s|
  {
    var a := ReplaceAll(s, "&lt;", "<");
    var b := ReplaceAll(a, "&gt;", ">");
    var c := ReplaceAll(b, "&amp;", "&");
    var d := ReplaceAll(c, "&apos;", "'");
    ReplaceAll(d, "&quot;", "\"")
  }

  /** Text without any `&` comes out of the chain unchanged, which is what lets the
      scanner skip decoding for runs in which it saw no `&`. */
  lemma DecodeChainWithoutAmpersand(s: string)
    requires '&' !in s
    ensures DecodeChain(s) == s
  {
    AbsentHead(s, "&lt;");
    AbsentHead(s, "&gt;");
    AbsentHead(s, "&amp;");
    AbsentHead(s, "&apos;");
    AbsentHead(s, "&quot;");
  }

  /** The character a predefined entity stands for, when `s` starts with one,
      with the entity's length. */
  function EntityAt(s: string): Option<(char, nat)> {
    if StartsWith(s, "&lt;") then Some(('<', 4))
    else if StartsWith(s, "&gt;") then Some(('>', 4))
    else if StartsWith(s, "&amp;") then Some(('&', 5))
    else if StartsWith(s, "&apos;") then Some(('\'', 6))
    else if StartsWith(s, "&quot;") then Some(('"', 6))
    else None
  }

  /** Single left-to-right decoding: each predefined entity is replaced once and the
      replacement is never looked at again. */
  function Decode(s: string): (r: string)
    ensures |r| <= |s|
    ensures '&' !in s ==> r == s
    decreases |s|
  {
    if s == [] then []
    else
      match EntityAt(s)
      case Some((c, n)) => [c] + Decode(s[n..])
      case None => [s[0]] + Decode(s[1..])
  }

  /** The characters that have a predefined entity. */
  predicate IsMarkupChar(c: char) {
    c == '&' || c == '<' || c == '>' || c == '\'' || c == '"'
  }

  /** The entity a serializer writes for a character, or the character itself. */
  function EscapeChar(c: char): (r: string)
    ensures |r| >= 1
    ensures r[0] == '&' <==> IsMarkupChar(c)
  {
    if c == '&' then "&amp;"
    else if c == '<' then "&lt;"
    else if c == '>' then "&gt;"
    else if c == '\'' then "&apos;"
    else if c == '"' then "&quot;"
    else [c]
  }

  /** Escapes every character that has a predefined entity. */
  function Escape(s: string): (r: string)
    ensures |r| >= |s|
    ensures (forall k :: 0 <= k < |s| ==> !IsMarkupChar(s[k])) ==> r == s
  {
    if s == [] then [] else EscapeChar(s[0]) + Escape(s[1..])
  }

  /** Which entity, if any, starts a string: decided by its first three characters. */
  lemma EntityAtByPrefix(s: string)
    requires |s| >= 3
    ensures s[0] != '&' ==> EntityAt(s) == None
    ensures s[0] == '&' && s[1] == 'l' && OccursAt(s, "&lt;", 0) ==> EntityAt(s) == Some(('<', 4))
    ensures s[0] == '&' && s[1] == 'g' && OccursAt(s, "&gt;", 0) ==> EntityAt(s) == Some(('>', 4))
    ensures s[0] == '&' && s[1] == 'a' && s[2] == 'm' && OccursAt(s, "&amp;", 0) ==> EntityAt(s) == Some(('&', 5))
    ensures s[0] == '&' && s[1] == 'a' && s[2] == 'p' && OccursAt(s, "&apos;", 0) ==> EntityAt(s) == Some(('\'', 6))
    ensures s[0] == '&' && s[1] == 'q' && OccursAt(s, "&quot;", 0) ==> EntityAt(s) == Some(('"', 6))
  {
    if s[0] != '&' {
      assert |s| >= 4 ==> s[..4][0] != "&lt;"[0];
      assert |s| >= 4 ==> s[..4][0] != "&gt;"[0];
      assert |s| >= 5 ==> s[..5][0] != "&amp;"[0];
      assert |s| >= 6 ==> s[..6][0] != "&apos;"[0];
      assert |s| >= 6 ==> s[..6][0] != "&quot;"[0];
    } else if s[1] == 'g' {
      assert |s| >= 4 ==> s[..4][1] != "&lt;"[1];
    } else if s[1] == 'a' {
      assert |s| >= 4 ==> s[..4][1] != "&lt;"[1];
      assert |s| >= 4 ==> s[..4][1] != "&gt;"[1];
      if s[2] == 'p' {
        assert |s| >= 5 ==> s[..5][2] != "&amp;"[2];
      }
    } else if s[1] == 'q' {
      assert |s| >= 4 ==> s[..4][1] != "&lt;"[1];
      assert |s| >= 4 ==> s[..4][1] != "&gt;"[1];
      assert |s| >= 5 ==> s[..5][1] != "&amp;"[1];
      assert |s| >= 6 ==> s[..6][1] != "&apos;"[1];
    }
  }

  /** Decoding a string that starts with an entity peels off that entity. */
  lemma DecodeAfterEntity(e: string, c: char, rest: string)
    requires e != [] && EntityAt(e + rest) == Some((c, |e|))
    ensures Decode(e + rest) == [c] + Decode(rest)
  {
    assert (e + rest)[|e|..] == rest;
  }

  /** Decoding the escaped form of a character peels off exactly that character. */
  lemma {:induction false} DecodeEscapeChar(c: char, rest: string)
    ensures Decode(EscapeChar(c) + rest) == [c] + Decode(rest)
  {
    var e := EscapeChar(c);
    var s := e + rest;
    if IsMarkupChar(c) {
      assert s[..|e|] == e;
      EntityAtByPrefix(s);
      DecodeAfterEntity(e, c, rest);
    } else {
      assert s[0] == c && s[1..] == rest;
      if |s| >= 3 {
        EntityAtByPrefix(s);
      }
    }
  }

  /** Round trip: decoding undoes escaping, for every string. */
  lemma {:induction false} DecodeEscape(s: string)
    ensures Decode(Escape(s)) == s
  {
    if s != [] {
      DecodeEscapeChar(s[0], Escape(s[1..]));
      DecodeEscape(s[1..]);
      assert [s[0]] + s[1..] == s;
    }
  }

  /** `&quot;` escapes to `&amp;quot;`. */
  lemma EscapeOfQuotEntity()
    ensures Escape("&quot;") == "&amp;quot;"
  {
    var q := "&quot;";
    var t := q[1..];
    assert t == "quot;";
    assert Escape(t) == t;
    assert Escape(q) == EscapeChar('&') + Escape(t);
  }

  /** The source's pass order decodes `&amp;quot;`, the escaped form of `&quot;`,
      twice, ending with a lone `"`; the single-pass decoding gives back `&quot;`. */
  lemma DecodeChainDecodesTwice(t: string)
    requires t == "&quot;"
    ensures Escape(t) == "&amp;quot;"
    ensures DecodeChain(Escape(t)) == "\""
    ensures Decode(Escape(t)) == t
  {
    EscapeOfQuotEntity();
    DecodeEscape(t);
    ChainOnEscapedQuot(Escape(t));
  }

  /** The `&amp;` pass turns `&amp;quot;` into a fresh `&quot;`, which the later
      `&quot;` pass decodes. */
  lemma ChainOnEscapedQuot(s: string)
    requires s == "&amp;quot;"
    ensures DecodeChain(s) == "\""
  {
    Absent(s, "&lt;");
    Absent(s, "&gt;");
    var c := AmpPass(s);
    Absent(c, "&apos;");
    QuotPass(c);
  }

  lemma AmpPass(s: string) returns (c: string)
    requires s == "&amp;quot;"
    ensures c == "&quot;" && ReplaceAll(s, "&amp;", "&") == c
  {
    c := "&quot;";
    assert s[..5] == "&amp;";
    assert s[5..] == "quot;";
    AbsentHead("quot;", "&amp;");
  }

  lemma QuotPass(c: string)
    requires c == "&quot;"
    ensures ReplaceAll(c, "&quot;", "\"") == "\""
  {
    assert c[..6] == "&quot;";
    assert c[6..] == [];
  }

  /** A pass keeps the first character of a string that does not start with the
      pattern, and goes on with the rest. */
  lemma PassSkipsHead(s: string, pat: string, rep: string)
    requires pat != [] && s != [] && !StartsWith(s, pat)
    ensures ReplaceAll(s, pat, rep) == [s[0]] + ReplaceAll(s[1..], pat, rep)
  {
    if |s| < |pat| {
      assert ReplaceAll(s[1..], pat, rep) == s[1..];
      assert [s[0]] + s[1..] == s;
    } else {
      assert s[..|pat|] != pat;
    }
  }

  /** A pass keeps a leading word that does not contain the pattern's first
      character. */
  lemma {:induction false} PassKeepsWord(w: string, y: string, pat: string, rep: string)
    requires pat != [] && pat[0] !in w
    ensures ReplaceAll(w + y, pat, rep) == w + ReplaceAll(y, pat, rep)
    decreases |w|
  {
    if w == [] {
      EmptyJoin(w, y);
      ReplaceAllSameInput(w + y, y, pat, rep);
      EmptyJoin(w, ReplaceAll(y, pat, rep));
    } else {
      var s := w + y;
      WordHead(w, y, pat);
      PassSkipsHead(s, pat, rep);
      ReplaceAllSameInput(s[1..], w[1..] + y, pat, rep);
      PassKeepsWord(w[1..], y, pat, rep);
      Prepend(ReplaceAll(s, pat, rep), ReplaceAll(s[1..], pat, rep), ReplaceAll(w[1..] + y, pat, rep),
        [s[0]], w[1..], ReplaceAll(y, pat, rep), w);
    }
  }

  /** Nothing in front changes nothing. */
  lemma EmptyJoin(w: string, y: string)
    requires w == []
    ensures w + y == y
  {
  }

  /** A word without the pattern's first character, in front of `y`: the join
      does not start with the pattern, and splits after its first character. */
  lemma WordHead(w: string, y: string, pat: string)
    requires pat != [] && w != [] && pat[0] !in w
    ensures !StartsWith(w + y, pat) && pat[0] !in w[1..]
    ensures (w + y)[1..] == w[1..] + y && w == [(w + y)[0]] + w[1..]
  {
    DiffersAt(w + y, pat, 0);
  }

  /** A pass that meets its own pattern at the front writes the replacement there. */
  lemma PassAtHead(e: string, rest: string, rep: string)
    requires e != []
    ensures ReplaceAll(e + rest, e, rep) == rep + ReplaceAll(rest, e, rep)
  {
    var s := e + rest;
    assert s[..|e|] == e;
    assert s[|e|..] == rest;
  }

  /** A string that differs from `p` at position `j` does not start with `p`. */
  lemma DiffersAt(s: string, p: string, j: nat)
    requires j < |s| && j < |p| && s[j] != p[j]
    ensures !StartsWith(s, p)
  {
    if |p| <= |s| {
      assert s[..|p|][j] == s[j];
    }
  }

  /** A pass keeps another entity at the front: one that differs from its pattern
      at position `j` and has no `&` after its own. */
  lemma PassKeepsEntity(e: string, rest: string, pat: string, rep: string, j: nat)
    requires pat != [] && e != [] && pat[0] !in e[1..]
    requires j < |e| && j < |pat| && e[j] != pat[j]
    ensures ReplaceAll(e + rest, pat, rep) == e + ReplaceAll(rest, pat, rep)
  {
    var s := e + rest;
    EntityHead(e, rest, pat, j);
    PassSkipsHead(s, pat, rep);
    ReplaceAllSameInput(s[1..], e[1..] + rest, pat, rep);
    PassKeepsWord(e[1..], rest, pat, rep);
    Prepend(ReplaceAll(s, pat, rep), ReplaceAll(s[1..], pat, rep), ReplaceAll(e[1..] + rest, pat, rep),
      [s[0]], e[1..], ReplaceAll(rest, pat, rep), e);
  }

  /** An entity that differs from the pattern at `j`, in front of `rest`: the
      join does not start with the pattern, and splits after its first character. */
  lemma EntityHead(e: string, rest: string, pat: string, j: nat)
    requires j < |e| && j < |pat| && e[j] != pat[j]
    ensures !StartsWith(e + rest, pat)
    ensures (e + rest)[1..] == e[1..] + rest && e == [(e + rest)[0]] + e[1..]
  {
    DiffersAt(e + rest, pat, j);
  }

  /** A pass keeps an `&` that does not start its pattern. */
  lemma AmpHeadPass(z: string, pat: string, rep: string)
    requires pat != [] && pat[0] == '&' && !StartsWith(z, pat[1..])
    ensures ReplaceAll("&" + z, pat, rep) == "&" + ReplaceAll(z, pat, rep)
  {
    var s := "&" + z;
    assert !StartsWith(s, pat);
    PassSkipsHead(s, pat, rep);
    assert s[1..] == z;
  }

  /** A pass creates no new occurrence at the front of a word that holds neither
      the pattern's first character nor the replacement. */
  lemma {:induction false} PassPrefix(y: string, pat: string, rep: string, w: string)
    requires pat != [] && |rep| == 1 && pat[0] !in w && rep[0] !in w
    requires StartsWith(ReplaceAll(y, pat, rep), w)
    ensures StartsWith(y, w)
    decreases |w|
  {
    var r := ReplaceAll(y, pat, rep);
    if w != [] && |y| >= |pat| {
      if y[..|pat|] == pat {
        assert false;
      }
      assert r == [y[0]] + ReplaceAll(y[1..], pat, rep);
      assert StartsWith(ReplaceAll(y[1..], pat, rep), w[1..]) by {
        assert r[1..][..|w| - 1] == r[..|w|][1..];
      }
      PassPrefix(y[1..], pat, rep, w[1..]);
      assert y[..|w|] == [y[0]] + y[1..][..|w| - 1];
    }
  }

  /** `y` starting with `w` means `e + y` starts with `e + w`. */
  lemma PrefixJoin(e: string, y: string, w: string)
    ensures StartsWith(y, w) ==> StartsWith(e + y, e + w)
  {
    if StartsWith(y, w) {
      assert (e + y)[..|e + w|] == e + y[..|w|];
    }
  }

  /** A string that does not contain `p` has no suffix that contains it. */
  lemma NotContainedInSuffix(s: string, p: string, n: nat)
    requires n <= |s| && !Contains(s, p)
    ensures !Contains(s[n..], p)
  {
    forall k: nat | k <= |s[n..]|
      ensures !OccursAt(s[n..], p, k)
    {
      assert !OccursAt(s, p, k + n);
      if k + |p| <= |s[n..]| {
        assert s[n..][k..k + |p|] == s[k + n..k + n + |p|];
      }
    }
  }

  /** The chain keeps a first character other than `&`. */
  lemma ChainPlainHead(x: char, y: string)
    requires x != '&'
    ensures DecodeChain([x] + y) == [x] + DecodeChain(y)
  {
    var a := ReplaceAll(y, "&lt;", "<");
    var b := ReplaceAll(a, "&gt;", ">");
    var c := ReplaceAll(b, "&amp;", "&");
    var d := ReplaceAll(c, "&apos;", "'");
    PassKeepsWord([x], y, "&lt;", "<");
    PassKeepsWord([x], a, "&gt;", ">");
    PassKeepsWord([x], b, "&amp;", "&");
    PassKeepsWord([x], c, "&apos;", "'");
    PassKeepsWord([x], d, "&quot;", "\"");
  }

  /** The chain keeps an `&` that starts no predefined entity. */
  lemma ChainAmpersandHead(y: string)
    requires !StartsWith(y, "lt;") && !StartsWith(y, "gt;") && !StartsWith(y, "amp;")
    requires !StartsWith(y, "apos;") && !StartsWith(y, "quot;")
    ensures DecodeChain("&" + y) == "&" + DecodeChain(y)
  {
    var a := ReplaceAll(y, "&lt;", "<");
    var b := ReplaceAll(a, "&gt;", ">");
    var c := ReplaceAll(b, "&amp;", "&");
    var d := ReplaceAll(c, "&apos;", "'");
    AmpHeadPass(y, "&lt;", "<");
    GtAfterPasses(y);
    AmpHeadPass(a, "&gt;", ">");
    AmpAfterPasses(y);
    AmpHeadPass(b, "&amp;", "&");
    AposAfterPasses(y);
    AmpHeadPass(c, "&apos;", "'");
    QuotAfterPasses(y);
    AmpHeadPass(d, "&quot;", "\"");
  }

  /** No `gt;` appears at the front through the first pass. */
  lemma GtAfterPasses(y: string)
    requires !StartsWith(y, "gt;")
    ensures !StartsWith(ReplaceAll(y, "&lt;", "<"), "gt;")
  {
    if StartsWith(ReplaceAll(y, "&lt;", "<"), "gt;") {
      PassPrefix(y, "&lt;", "<", "gt;");
    }
  }

  /** No `amp;` appears at the front through the first two passes. */
  lemma AmpAfterPasses(y: string)
    requires !StartsWith(y, "amp;")
    ensures !StartsWith(ReplaceAll(ReplaceAll(y, "&lt;", "<"), "&gt;", ">"), "amp;")
  {
    var a := ReplaceAll(y, "&lt;", "<");
    if StartsWith(ReplaceAll(a, "&gt;", ">"), "amp;") {
      PassPrefix(a, "&gt;", ">", "amp;");
      PassPrefix(y, "&lt;", "<", "amp;");
    }
  }

  /** No `apos;` appears at the front through the first three passes. */
  lemma AposAfterPasses(y: string)
    requires !StartsWith(y, "apos;")
    ensures !StartsWith(ReplaceAll(ReplaceAll(ReplaceAll(y, "&lt;", "<"), "&gt;", ">"), "&amp;", "&"), "apos;")
  {
    var a := ReplaceAll(y, "&lt;", "<");
    var b := ReplaceAll(a, "&gt;", ">");
    var c := ReplaceAll(b, "&amp;", "&");
    if StartsWith(c, "apos;") {
      PassPrefix(b, "&amp;", "&", "apos;");
      PassPrefix(a, "&gt;", ">", "apos;");
      PassPrefix(y, "&lt;", "<", "apos;");
    }
  }

  /** No `quot;` appears at the front through the first four passes. */
  lemma QuotAfterPasses(y: string)
    requires !StartsWith(y, "quot;")
    ensures !StartsWith(ReplaceAll(ReplaceAll(ReplaceAll(ReplaceAll(y, "&lt;", "<"), "&gt;", ">"), "&amp;", "&"), "&apos;", "'"), "quot;")
  {
    var a := ReplaceAll(y, "&lt;", "<");
    var b := ReplaceAll(a, "&gt;", ">");
    var c := ReplaceAll(b, "&amp;", "&");
    var d := ReplaceAll(c, "&apos;", "'");
    if StartsWith(d, "quot;") {
      PassPrefix(c, "&apos;", "'", "quot;");
      PassPrefix(b, "&amp;", "&", "quot;");
      PassPrefix(a, "&gt;", ">", "quot;");
      PassPrefix(y, "&lt;", "<", "quot;");
    }
  }

  /** The chain decodes a leading `&lt;` once. */
  lemma ChainLt(rest: string)
    ensures DecodeChain("&lt;" + rest) == "<" + DecodeChain(rest)
  {
    PassAtHead("&lt;", rest, "<");
    var a := ReplaceAll(rest, "&lt;", "<");
    var b := ReplaceAll(a, "&gt;", ">");
    var c := ReplaceAll(b, "&amp;", "&");
    var d := ReplaceAll(c, "&apos;", "'");
    PassKeepsWord("<", a, "&gt;", ">");
    PassKeepsWord("<", b, "&amp;", "&");
    PassKeepsWord("<", c, "&apos;", "'");
    PassKeepsWord("<", d, "&quot;", "\"");
  }

  /** The chain decodes a leading `&gt;` once. */
  lemma ChainGt(rest: string)
    ensures DecodeChain("&gt;" + rest) == ">" + DecodeChain(rest)
  {
    PassKeepsEntity("&gt;", rest, "&lt;", "<", 1);
    var a := ReplaceAll(rest, "&lt;", "<");
    PassAtHead("&gt;", a, ">");
    var b := ReplaceAll(a, "&gt;", ">");
    var c := ReplaceAll(b, "&amp;", "&");
    var d := ReplaceAll(c, "&apos;", "'");
    PassKeepsWord(">", b, "&amp;", "&");
    PassKeepsWord(">", c, "&apos;", "'");
    PassKeepsWord(">", d, "&quot;", "\"");
  }

  /** The chain decodes a leading `&apos;` once. */
  lemma ChainApos(rest: string)
    ensures DecodeChain("&apos;" + rest) == "'" + DecodeChain(rest)
  {
    PassKeepsEntity("&apos;", rest, "&lt;", "<", 1);
    var a := ReplaceAll(rest, "&lt;", "<");
    PassKeepsEntity("&apos;", a, "&gt;", ">", 1);
    var b := ReplaceAll(a, "&gt;", ">");
    PassKeepsEntity("&apos;", b, "&amp;", "&", 2);
    var c := ReplaceAll(b, "&amp;", "&");
    PassAtHead("&apos;", c, "'");
    var d := ReplaceAll(c, "&apos;", "'");
    PassKeepsWord("'", d, "&quot;", "\"");
  }

  /** The chain decodes a leading `&quot;` once. */
  lemma ChainQuot(rest: string)
    ensures DecodeChain("&quot;" + rest) == "\"" + DecodeChain(rest)
  {
    PassKeepsEntity("&quot;", rest, "&lt;", "<", 1);
    var a := ReplaceAll(rest, "&lt;", "<");
    PassKeepsEntity("&quot;", a, "&gt;", ">", 1);
    var b := ReplaceAll(a, "&gt;", ">");
    PassKeepsEntity("&quot;", b, "&amp;", "&", 1);
    var c := ReplaceAll(b, "&amp;", "&");
    PassKeepsEntity("&quot;", c, "&apos;", "'", 1);
    var d := ReplaceAll(c, "&apos;", "'");
    PassAtHead("&quot;", d, "\"");
  }

  /** The chain decodes a leading `&amp;` once, unless what follows is `apos;` or
      `quot;`, which the `&amp;` pass would turn into a fresh entity. */
  lemma ChainAmp(rest: string)
    requires !StartsWith(rest, "apos;") && !StartsWith(rest, "quot;")
    ensures DecodeChain("&amp;" + rest) == "&" + DecodeChain(rest)
  {
    PassKeepsEntity("&amp;", rest, "&lt;", "<", 1);
    var a := ReplaceAll(rest, "&lt;", "<");
    PassKeepsEntity("&amp;", a, "&gt;", ">", 1);
    var b := ReplaceAll(a, "&gt;", ">");
    PassAtHead("&amp;", b, "&");
    var c := ReplaceAll(b, "&amp;", "&");
    AposAfterPasses(rest);
    AmpHeadPass(c, "&apos;", "'");
    var d := ReplaceAll(c, "&apos;", "'");
    QuotAfterPasses(rest);
    AmpHeadPass(d, "&quot;", "\"");
  }

  /** The chain decodes the entity at the front once, as the single pass does. */
  lemma ChainEntityHead(s: string, c: char, n: nat)
    requires EntityAt(s) == Some((c, n))
    requires !StartsWith(s, "&amp;apos;") && !StartsWith(s, "&amp;quot;")
    ensures n <= |s| && DecodeChain(s) == [c] + DecodeChain(s[n..])
  {
    var e := s[..n];
    var rest := s[n..];
    assert s == e + rest;
    if StartsWith(s, "&lt;") {
      ChainLt(rest);
    } else if StartsWith(s, "&gt;") {
      ChainGt(rest);
    } else if StartsWith(s, "&amp;") {
      PrefixJoin("&amp;", rest, "apos;");
      PrefixJoin("&amp;", rest, "quot;");
      assert "&amp;" + "apos;" == "&amp;apos;";
      assert "&amp;" + "quot;" == "&amp;quot;";
      ChainAmp(rest);
    } else if StartsWith(s, "&apos;") {
      ChainApos(rest);
    } else {
      ChainQuot(rest);
    }
  }

  /** The chain keeps a first character that starts no predefined entity. */
  lemma ChainNoEntityHead(s: string)
    requires s != [] && EntityAt(s) == None
    ensures DecodeChain(s) == [s[0]] + DecodeChain(s[1..])
  {
    var y := s[1..];
    assert s == [s[0]] + y;
    if s[0] == '&' {
      PrefixJoin("&", y, "lt;");
      PrefixJoin("&", y, "gt;");
      PrefixJoin("&", y, "amp;");
      PrefixJoin("&", y, "apos;");
      PrefixJoin("&", y, "quot;");
      ChainAmpersandHead(y);
    } else {
      ChainPlainHead(s[0], y);
    }
  }

  /** The five passes decode exactly as the single pass does, for every text in
      which the `&amp;` pass cannot create a fresh `&apos;` or `&quot;`. */
  lemma {:induction false} DecodeChainAgrees(s: string)
    requires !Contains(s, "&amp;apos;") && !Contains(s, "&amp;quot;")
    ensures DecodeChain(s) == Decode(s)
    decreases |s|
  {
    if s != [] {
      assert !StartsWith(s, "&amp;apos;") && !StartsWith(s, "&amp;quot;");
      match EntityAt(s)
      case Some((c, n)) =>
        ChainEntityHead(s, c, n);
        NotContainedInSuffix(s, "&amp;apos;", n);
        NotContainedInSuffix(s, "&amp;quot;", n);
        DecodeChainAgrees(s[n..]);
      case None =>
        ChainNoEntityHead(s);
        NotContainedInSuffix(s, "&amp;apos;", 1);
        NotContainedInSuffix(s, "&amp;quot;", 1);
        DecodeChainAgrees(s[1..]);
    }
  }

  /** Helper for the example above: `p` (an entity whose second letter differs from
      every letter that follows an `&` in `s`) does not occur in `s`. */
  lemma Absent(s: string, p: string)
    requires |p| >= 2
    requires forall k :: 0 <= k < |s| - 1 && s[k] == p[0] ==> s[k + 1] != p[1]
    ensures !Contains(s, p)
  {
    forall k: nat | k <= |s| ensures !OccursAt(s, p, k) {
      if k + |p| <= |s| {
        assert s[k..k + |p|][0] == s[k] && s[k..k + |p|][1] == s[k + 1];
      }
    }
  }
}
