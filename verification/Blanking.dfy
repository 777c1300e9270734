/** `scripts/check_test_assertions.py`: blanking literals and comments, and the brace
    matcher that reads the blanked text. */
module Blanking {
  import opened Prelude

  // ------------------------------------------------------------------- tokens

  /** What begins at a position: a raw string with its hashes and the place its body
      begins, a char literal with its length, a string, or a comment. */
  datatype Token = Raw(hashes: nat, body: nat) | Char(size: nat) | Str | Line | Block

  predicate IdentChar(c: char) { 'A' <= c <= 'Z' || 'a' <= c <= 'z' || '0' <= c <= '9' || c == '_' }

  predicate Has(text: string, p: nat, c: char) { p < |text| && text[p] == c }

  /** The length of the run of hashes at `p`. */
  function HashRun(text: string, p: nat): (h: nat)
    ensures p <= |text| ==> p + h <= |text|
    decreases |text| - p
  {
    if Has(text, p, '#') then 1 + HashRun(text, p + 1) else 0
  }

  /** A raw string opens where no identifier runs into it. */
  function RawAt(text: string, p: nat): (t: Option<Token>)
    ensures t.Some? ==> t.value.Raw? && p + 2 <= t.value.body <= |text| && '"' in text
  {
    if p < |text| && p > 0 && IdentChar(text[p - 1]) then None
    else
      var r := if Has(text, p, 'b') || Has(text, p, 'c') then p + 1 else p;
      if !Has(text, r, 'r') then None
      else
        var h := HashRun(text, r + 1);
        if Has(text, r + 1 + h, '"') then Some(Raw(h, r + 2 + h)) else None
  }

  /** A quote, one character or an escape of one that is no newline, and a quote. */
  function CharAt(text: string, p: nat): (t: Option<Token>)
    ensures t.Some? ==> t.value.Char? && 3 <= t.value.size <= 4 && p + t.value.size <= |text|
  {
    if !Has(text, p, '\'') || p + 2 >= |text| then None
    else if text[p + 1] == '\\' then
      if text[p + 2] != '\n' && Has(text, p + 3, '\'') then Some(Char(4)) else None
    else if text[p + 1] != '\'' && text[p + 2] == '\'' then Some(Char(3))
    else None
  }

  /** The first alternative that matches at `p`. */
  function TokenAt(text: string, p: nat): (t: Option<Token>)
    ensures t.Some? ==> p < |text|
  {
    if RawAt(text, p).Some? then RawAt(text, p)
    else if CharAt(text, p).Some? then CharAt(text, p)
    else if Has(text, p, '"') then Some(Str)
    else if Has(text, p, '/') && Has(text, p + 1, '/') then Some(Line)
    else if Has(text, p, '/') && Has(text, p + 1, '*') then Some(Block)
    else None
  }

  // ------------------------------------------------------------ where tokens end

  /** Past the first occurrence of the closing at or after `p`, or the end. */
  function Past(text: string, closing: string, p: nat): (e: nat)
    requires p <= |text|
    ensures p <= e <= |text|
    decreases |text| - p
  {
    if p + |closing| > |text| then |text|
    else if text[p..p + |closing|] == closing then p + |closing|
    else if p < |text| then Past(text, closing, p + 1)
    else |text|
  }

  predicate OccursAt(text: string, closing: string, q: nat) {
    q + |closing| <= |text| && text[q..q + |closing|] == closing
  }

  /** The end is past the first occurrence, or the text's end when there is none. */
  lemma {:induction false} PastIsFirst(text: string, closing: string, p: nat)
    requires p <= |text|
    ensures var e := Past(text, closing, p);
            || (e == |text| && forall q: nat :: p <= q ==> !OccursAt(text, closing, q))
            || (p + |closing| <= e && OccursAt(text, closing, e - |closing|)
                && forall q: nat :: p <= q < e - |closing| ==> !OccursAt(text, closing, q))
    decreases |text| - p
  {
    if p < |text| && p + |closing| <= |text| && text[p..p + |closing|] != closing {
      PastIsFirst(text, closing, p + 1);
      assert !OccursAt(text, closing, p);
    } else if p + |closing| <= |text| {
      assert OccursAt(text, closing, p) || |closing| == 0;
    }
  }

  /** Past the closing quote of a string body, escapes skipped in pairs. */
  function StringEnd(text: string, p: nat): (e: nat)
    requires p <= |text|
    ensures p <= e <= |text| && (p < |text| ==> p < e)
    decreases |text| - p
  {
    if p == |text| then p
    else if text[p] == '"' then p + 1
    else if text[p] == '\\' then if p + 1 < |text| then StringEnd(text, p + 2) else |text|
    else StringEnd(text, p + 1)
  }

  /** The next newline, or the end. */
  function LineEnd(text: string, p: nat): (e: nat)
    requires p <= |text|
    ensures p <= e <= |text|
    ensures (forall k :: p <= k < e ==> text[k] != '\n') && (e < |text| ==> text[e] == '\n')
    decreases |text| - p
  {
    if p == |text| || text[p] == '\n' then p else LineEnd(text, p + 1)
  }

  predicate Opens(text: string, p: nat) { Has(text, p, '/') && Has(text, p + 1, '*') }

  predicate Closes(text: string, p: nat) { Has(text, p, '*') && Has(text, p + 1, '/') }

  /** Past the mark that closes the last of `depth` open comments, or the end. */
  function BlockEnd(text: string, p: nat, depth: nat): (e: nat)
    requires p <= |text|
    ensures p <= e <= |text|
    decreases |text| - p
  {
    if depth == 0 then p
    else if p == |text| then p
    else if Opens(text, p) then BlockEnd(text, p + 2, depth + 1)
    else if Closes(text, p) then BlockEnd(text, p + 2, depth - 1)
    else BlockEnd(text, p + 1, depth)
  }

  function Hashes(n: nat): string { seq(n, _ => '#') }

  function TokenEnd(text: string, p: nat, t: Token): (e: nat)
    requires TokenAt(text, p) == Some(t)
    ensures p < e <= |text| && (p + 2 <= e || e == |text|)
  {
    match t
    case Raw(h, body) => Past(text, "\"" + Hashes(h), body)
    case Char(size) => p + size
    case Str => StringEnd(text, p + 1)
    case Line => LineEnd(text, p)
    case Block => BlockEnd(text, p + 2, 1)
  }

  // --------------------------------------------------------------------- blanking

  function Spaces(n: nat): string { seq(n, _ => ' ') }

  function Blank(s: string): string { seq(|s|, i requires 0 <= i < |s| => if s[i] == '\n' then '\n' else ' ') }

  /** A string body blanked piece by piece: an escape loses both its characters. */
  function BlankBody(s: string): (r: string)
    ensures |r| == |s|
  {
    if s == "" then ""
    else if s[0] == '\\' then if |s| >= 2 then "  " + BlankBody(s[2..]) else " "
    else [if s[0] == '\n' then '\n' else ' '] + BlankBody(s[1..])
  }

  function Blanked(text: string, p: nat, t: Token): (r: string)
    requires TokenAt(text, p) == Some(t)
    ensures |r| == TokenEnd(text, p, t) - p
  {
    var e := TokenEnd(text, p, t);
    match t
    case Char(_) => Spaces(e - p)
    case Str => " " + BlankBody(text[p + 1..e])
    case Line => Spaces(e - p)
    case _ => Blank(text[p..e])
  }

  /** The text from `p` on with every token blanked. */
  function Strip(text: string, p: nat): (r: string)
    requires p <= |text|
    ensures |r| == |text| - p
    decreases |text| - p
  {
    if p == |text| then ""
    else match TokenAt(text, p)
      case None => [text[p]] + Strip(text, p + 1)
      case Some(t) => Blanked(text, p, t) + Strip(text, TokenEnd(text, p, t))
  }

  // ------------------------------------------------------------ the jumping scanner

  /** The next position that begins a token, or the end. */
  function NextToken(text: string, p: nat): (q: nat)
    requires p <= |text|
    ensures p <= q <= |text| && (q < |text| ==> TokenAt(text, q).Some?)
    ensures forall k :: p <= k < q ==> TokenAt(text, k).None?
    decreases |text| - p
  {
    if p == |text| || TokenAt(text, p).Some? then p else NextToken(text, p + 1)
  }

  lemma {:induction false} StripJumps(text: string, p: nat)
    requires p <= |text|
    ensures Strip(text, p) == text[p..NextToken(text, p)] + Strip(text, NextToken(text, p))
    decreases |text| - p
  {
    hide TokenAt, Blanked, TokenEnd;
    if p < |text| && TokenAt(text, p).None? {
      StripJumps(text, p + 1);
      var q := NextToken(text, p);
      assert q == NextToken(text, p + 1);
      assert [text[p]] + text[p + 1..q] == text[p..q];
      assert Strip(text, p) == [text[p]] + Strip(text, p + 1);
    } else {
      assert text[p..p] == "";
    }
  }

  /** The next comment mark, or the end. */
  function NextMark(text: string, p: nat): (q: nat)
    requires p <= |text|
    ensures p <= q <= |text| && (q < |text| ==> Opens(text, q) || Closes(text, q))
    ensures forall k :: p <= k < q ==> !Opens(text, k) && !Closes(text, k)
    decreases |text| - p
  {
    if p == |text| || Opens(text, p) || Closes(text, p) then p else NextMark(text, p + 1)
  }

  lemma {:induction false} BlockJumps(text: string, p: nat, depth: nat)
    requires p <= |text| && depth > 0
    ensures BlockEnd(text, p, depth) == BlockEnd(text, NextMark(text, p), depth)
    decreases |text| - p
  {
    if p < |text| && !Opens(text, p) && !Closes(text, p) {
      BlockJumps(text, p + 1, depth);
    }
  }

  method SkipBlock(text: string, p: nat) returns (end: nat)
    requires p + 2 <= |text|
    ensures end == BlockEnd(text, p + 2, 1)
  {
    var depth := 1;
    end := p + 2;
    while depth != 0
      invariant p + 2 <= end <= |text| && depth >= 0
      invariant BlockEnd(text, end, depth) == BlockEnd(text, p + 2, 1)
      decreases |text| - end, depth
    {
      BlockJumps(text, end, depth);
      var mark := NextMark(text, end);
      if mark == |text| {
        end := |text|;
        break;
      }
      depth := if Opens(text, mark) then depth + 1 else depth - 1;
      end := mark + 2;
    }
  }

  lemma {:induction false} StripToken(text: string, p: nat, q: nat, t: Token)
    requires p <= |text| && q == NextToken(text, p) && q < |text| && TokenAt(text, q) == Some(t)
    ensures Strip(text, p) == (text[p..q] + Blanked(text, q, t)) + Strip(text, TokenEnd(text, q, t))
  {
    hide TokenAt, TokenEnd, Blanked;
    StripJumps(text, p);
    assert Strip(text, q) == Blanked(text, q, t) + Strip(text, TokenEnd(text, q, t));
    hide Strip;
  }

  lemma {:induction false} StripRest(text: string, p: nat)
    requires p <= |text| == NextToken(text, p)
    ensures Strip(text, p) == text[p..]
  {
    StripJumps(text, p);
    assert Strip(text, |text|) == "";
    hide Strip;
  }

  /** `strip_noise`: jumps from token to token. */
  method StripNoise(text: string) returns (out: string)
    ensures out == Strip(text, 0)
  {
    hide Strip, TokenAt, TokenEnd, Blanked, NextToken;
    out := "";
    var i := 0;
    while i < |text|
      invariant 0 <= i <= |text|
      invariant out + Strip(text, i) == Strip(text, 0)
      decreases |text| - i
    {
      var start := NextToken(text, i);
      if start == |text| {
        StripRest(text, i);
        out := out + text[i..];
        return;
      }
      var token := TokenAt(text, start).value;
      StripToken(text, i, start, token);
      var end, blanked := BlankToken(text, start, token);
      Reassociate(out, text[i..start], blanked, Strip(text, end));
      out := out + text[i..start] + blanked;
      i := end;
    }
    assert Strip(text, i) == "";
  }

  lemma Reassociate(a: string, b: string, c: string, d: string)
    ensures a + ((b + c) + d) == ((a + b) + c) + d
  {
  }

  /** One arm of the scanner's loop. */
  method BlankToken(text: string, start: nat, token: Token) returns (end: nat, blanked: string)
    requires TokenAt(text, start) == Some(token)
    ensures end == TokenEnd(text, start, token) && blanked == Blanked(text, start, token)
  {
    match token
    case Raw(h, body) =>
      end := Past(text, "\"" + Hashes(h), body);
      blanked := Blank(text[start..end]);
    case Char(size) =>
      end := start + size;
      blanked := Spaces(end - start);
    case Str =>
      end := StringEnd(text, start + 1);
      blanked := " " + BlankBody(text[start + 1..end]);
    case Line =>
      end := LineEnd(text, start);
      blanked := Spaces(end - start);
    case Block =>
      end := SkipBlock(text, start);
      blanked := Blank(text[start..end]);
  }

  // --------------------------------------------------- what the blanked text holds

  predicate IsBlank(c: char) { c == ' ' || c == '\n' }

  /** `r` is the text from `p` on with some positions blanked: a character that is no
      blank is the text's own, at a position that begins no token; and a position that
      was changed has a blank neighbour or is the last. */
  ghost predicate Masks(r: string, text: string, p: nat) {
    && p + |r| == |text|
    && (forall k :: 0 <= k < |r| && !IsBlank(r[k]) ==> r[k] == text[p + k] && TokenAt(text, p + k).None?)
    && (forall k :: 0 <= k < |r| && r[k] != text[p + k] ==> Sheltered(r, k))
  }

  predicate Sheltered(r: string, k: nat)
    requires k < |r|
  {
    k + 1 == |r| || IsBlank(r[k + 1]) || (k > 0 && IsBlank(r[k - 1]))
  }

  lemma {:induction false} BlankBodyBlank(s: string)
    ensures forall k :: 0 <= k < |s| ==> IsBlank(BlankBody(s)[k])
  {
    if s != "" {
      if s[0] != '\\' {
        BlankBodyBlank(s[1..]);
      } else if |s| >= 2 {
        BlankBodyBlank(s[2..]);
      }
    }
  }

  lemma BlankedBlank(text: string, p: nat, t: Token)
    requires TokenAt(text, p) == Some(t)
    ensures forall k :: 0 <= k < |Blanked(text, p, t)| ==> IsBlank(Blanked(text, p, t)[k])
  {
    hide TokenAt, TokenEnd;
    if t.Str? {
      BlankBodyBlank(text[p + 1..TokenEnd(text, p, t)]);
    }
  }

  /** Whether the scan from `p` finds `k` inside a token. */
  predicate Inside(text: string, p: nat, k: nat)
    requires p <= k < |text|
    decreases |text| - p
  {
    match TokenAt(text, p)
    case None => k > p && Inside(text, p + 1, k)
    case Some(t) => k < TokenEnd(text, p, t) || Inside(text, TokenEnd(text, p, t), k)
  }

  /** A position is blanked when a token covers it and left alone when none does. */
  lemma {:induction false} BlanksExactlyTokens(text: string, p: nat, k: nat)
    requires p <= k < |text|
    ensures var c := Strip(text, p)[k - p]; if Inside(text, p, k) then IsBlank(c) else c == text[k]
    decreases |text| - p
  {
    hide TokenAt, TokenEnd, Blanked;
    match TokenAt(text, p)
    case None =>
      if k > p {
        BlanksExactlyTokens(text, p + 1, k);
      }
    case Some(t) =>
      BlankedBlank(text, p, t);
      if k >= TokenEnd(text, p, t) {
        BlanksExactlyTokens(text, TokenEnd(text, p, t), k);
      }
  }

  lemma {:induction false} MasksKeep(c: char, rest: string, text: string, p: nat)
    requires p < |text| && text[p] == c && TokenAt(text, p).None? && Masks(rest, text, p + 1)
    ensures Masks([c] + rest, text, p)
  {
    hide TokenAt;
    var r := [c] + rest;
    forall k | 0 <= k < |r|
      ensures !IsBlank(r[k]) ==> r[k] == text[p + k] && TokenAt(text, p + k).None?
      ensures r[k] != text[p + k] ==> Sheltered(r, k)
    {
      if k > 0 {
        assert r[k] == rest[k - 1] && text[p + k] == text[p + 1 + (k - 1)];
        assert TokenAt(text, p + k) == TokenAt(text, p + 1 + (k - 1));
      }
    }
  }

  lemma {:induction false} MasksBlank(b: string, rest: string, text: string, p: nat)
    requires forall k :: 0 <= k < |b| ==> IsBlank(b[k])
    requires (|b| >= 2 || rest == "") && Masks(rest, text, p + |b|)
    ensures Masks(b + rest, text, p)
  {
    hide TokenAt;
    var r := b + rest;
    forall k | 0 <= k < |r|
      ensures !IsBlank(r[k]) ==> r[k] == text[p + k] && TokenAt(text, p + k).None?
      ensures r[k] != text[p + k] ==> Sheltered(r, k)
    {
      if k >= |b| {
        var j := k - |b|;
        assert r[k] == rest[j] && p + k == p + |b| + j;
      } else {
        assert r[k] == b[k];
        if k > 0 {
          assert r[k - 1] == b[k - 1];
        } else if |b| >= 2 {
          assert r[1] == b[1];
        }
      }
    }
  }

  lemma {:induction false} StripMasks(text: string, p: nat)
    requires p <= |text|
    ensures Masks(Strip(text, p), text, p)
    decreases |text| - p
  {
    hide TokenAt, TokenEnd, Blanked;
    if p < |text| {
      match TokenAt(text, p)
      case None =>
        StripMasks(text, p + 1);
        MasksKeep(text[p], Strip(text, p + 1), text, p);
      case Some(t) =>
        var e := TokenEnd(text, p, t);
        StripMasks(text, e);
        BlankedBlank(text, p, t);
        MasksBlank(Blanked(text, p, t), Strip(text, e), text, p);
    }
  }

  /** What the blanked text shows at `k` the text has there, and it begins no token. */
  lemma Shown(text: string, r: string, k: nat)
    requires Masks(r, text, 0)
    ensures k < |r| && !IsBlank(r[k]) ==> r[k] == text[k] && TokenAt(text, k).None?
    ensures k < |r| && r[k] != text[k] ==> Sheltered(r, k)
  {
    assert k < |r| ==> text[0 + k] == text[k];
    hide TokenAt;
  }

  /** A char literal shown whole was there before. */
  lemma CharCopied(text: string, r: string, k: nat)
    requires |r| == |text|
    requires forall j :: 0 <= j < |r| && !IsBlank(r[j]) ==> r[j] == text[j]
    requires forall j :: 0 <= j < |r| && r[j] != text[j] ==> Sheltered(r, j)
    ensures CharAt(r, k).Some? ==> CharAt(text, k).Some? && !IsBlank(r[k])
  {
    if CharAt(r, k).Some? {
      var size := CharAt(r, k).value.size;
      var m := k + size - 2;
      assert r[m] == text[m];
      assert CharAt(text, k) == CharAt(r, k);
    }
  }

  lemma NoChar(text: string, r: string, k: nat)
    requires Masks(r, text, 0)
    ensures CharAt(r, k).None?
  {
    forall j: nat | j < |r|
      ensures !IsBlank(r[j]) ==> r[j] == text[j]
      ensures r[j] != text[j] ==> Sheltered(r, j)
    {
      Shown(text, r, j);
    }
    Shown(text, r, k);
    CharCopied(text, r, k);
    assert CharAt(text, k).Some? ==> TokenAt(text, k).Some?;
    hide RawAt, CharAt;
  }

  lemma RawShowsQuote(r: string, k: nat)
    requires forall j :: 0 <= j < |r| ==> r[j] != '"'
    ensures RawAt(r, k).None?
  {
  }

  lemma QuotesGone(text: string, r: string)
    requires Masks(r, text, 0)
    ensures forall j :: 0 <= j < |r| ==> r[j] != '"'
  {
    forall j: nat | j < |r| ensures r[j] != '"' {
      Shown(text, r, j);
      assert Has(text, j, '"') ==> TokenAt(text, j).Some?;
    }
  }

  lemma NoOpener(text: string, r: string, k: nat)
    requires Masks(r, text, 0)
    ensures !(Has(r, k, '/') && (Has(r, k + 1, '/') || Has(r, k + 1, '*')))
  {
    Shown(text, r, k);
    Shown(text, r, k + 1);
    assert Has(text, k, '/') && (Has(text, k + 1, '/') || Has(text, k + 1, '*')) ==> TokenAt(text, k).Some?;
    hide RawAt, CharAt, TokenAt;
  }

  /** The blanked text holds no token at all: no double quote, no comment opener and
      no char literal, at any position. */
  lemma NothingToBlank(text: string, k: nat)
    requires k < |text|
    ensures var r := Strip(text, 0); TokenAt(r, k).None? && r[k] != '"'
  {
    StripMasks(text, 0);
    var r := Strip(text, 0);
    hide Strip, RawAt, CharAt, Masks;
    QuotesGone(text, r);
    RawShowsQuote(r, k);
    NoChar(text, r, k);
    NoOpener(text, r, k);
  }

  lemma {:induction false} StripOfClean(text: string, p: nat)
    requires p <= |text| && forall k :: 0 <= k < |text| ==> TokenAt(text, k).None?
    ensures Strip(text, p) == text[p..]
    decreases |text| - p
  {
    hide TokenAt;
    if p < |text| {
      StripOfClean(text, p + 1);
      assert text[p..] == [text[p]] + text[p + 1..];
    }
  }

  /** Blanking keeps the length and changes nothing the second time. */
  lemma Idempotent(text: string)
    ensures |Strip(text, 0)| == |text| && Strip(Strip(text, 0), 0) == Strip(text, 0)
  {
    var r := Strip(text, 0);
    forall k | 0 <= k < |r| ensures TokenAt(r, k).None? {
      NothingToBlank(text, k);
    }
    hide Strip, TokenAt;
    StripOfClean(r, 0);
  }

  // --------------------------------------------------------------------- newlines

  /** A string body in which some escape is of a newline. */
  predicate EscapesNewline(s: string) {
    |s| >= 2 && if s[0] == '\\' then s[1] == '\n' || EscapesNewline(s[2..]) else EscapesNewline(s[1..])
  }

  /** The two arms that blank a newline: a char literal of one, and an escape of one. */
  predicate LosesNewline(text: string, p: nat, t: Token)
    requires TokenAt(text, p) == Some(t)
  {
    match t
    case Char(_) => text[p..TokenEnd(text, p, t)][1] == '\n'
    case Str => EscapesNewline(text[p + 1..TokenEnd(text, p, t)])
    case _ => false
  }

  /** Whether some token from `p` on blanks a newline. */
  predicate AnyLost(text: string, p: nat)
    requires p <= |text|
    decreases |text| - p
  {
    p < |text| &&
    match TokenAt(text, p)
    case None => AnyLost(text, p + 1)
    case Some(t) => LosesNewline(text, p, t) || AnyLost(text, TokenEnd(text, p, t))
  }

  predicate SameLines(r: string, s: string) {
    |r| == |s| && forall k :: 0 <= k < |s| ==> (r[k] == '\n' <==> s[k] == '\n')
  }

  lemma {:induction false} SameLinesConcat(a: string, b: string, c: string, d: string)
    requires |a| == |c| && |b| == |d|
    ensures SameLines(a + b, c + d) <==> SameLines(a, c) && SameLines(b, d)
  {
    if SameLines(a + b, c + d) {
      forall k | 0 <= k < |a| ensures a[k] == '\n' <==> c[k] == '\n' {
        assert (a + b)[k] == a[k] && (c + d)[k] == c[k];
      }
      forall k | 0 <= k < |b| ensures b[k] == '\n' <==> d[k] == '\n' {
        assert (a + b)[|a| + k] == b[k] && (c + d)[|a| + k] == d[k];
      }
    }
  }

  lemma {:induction false} BodyLines(s: string)
    ensures SameLines(BlankBody(s), s) <==> !EscapesNewline(s)
  {
    if s != "" {
      if s[0] != '\\' {
        BodyLines(s[1..]);
        var c := [if s[0] == '\n' then '\n' else ' '];
        SameLinesConcat(c, BlankBody(s[1..]), s[..1], s[1..]);
        assert s == s[..1] + s[1..];
        assert SameLines(c, s[..1]);
      } else if |s| >= 2 {
        BodyLines(s[2..]);
        SameLinesConcat("  ", BlankBody(s[2..]), s[..2], s[2..]);
        assert s == s[..2] + s[2..];
        assert SameLines("  ", s[..2]) <==> s[1] != '\n';
      }
    }
  }

  lemma CharLines(text: string, p: nat, size: nat)
    requires CharAt(text, p) == Some(Char(size))
    ensures SameLines(Spaces(size), text[p..p + size]) <==> text[p..p + size][1] != '\n'
  {
    var s := text[p..p + size];
    assert s[0] == '\'' && s[size - 1] == '\'';
    assert size == 4 ==> s[1] == '\\' && s[2] == text[p + 2];
    if s[1] != '\n' {
      forall k | 0 <= k < size ensures s[k] != '\n' {
      }
    }
  }

  lemma BlankedLines(text: string, p: nat, t: Token)
    requires TokenAt(text, p) == Some(t)
    ensures SameLines(Blanked(text, p, t), text[p..TokenEnd(text, p, t)]) <==> !LosesNewline(text, p, t)
  {
    var e := TokenEnd(text, p, t);
    var s := text[p..e];
    hide RawAt, HashRun, StringEnd, BlockEnd, Past;
    match t
    case Char(size) =>
      CharLines(text, p, size);
    case Str =>
      BodyLines(text[p + 1..e]);
      SameLinesConcat(" ", BlankBody(text[p + 1..e]), text[p..p + 1], text[p + 1..e]);
      assert s == text[p..p + 1] + text[p + 1..e];
      assert SameLines(" ", text[p..p + 1]);
    case Line =>
      assert forall k :: 0 <= k < |s| ==> s[k] == text[p + k];
    case _ =>
  }

  /** Every newline stays where it was exactly when no token is a char literal of a
      newline and no string escapes one. */
  lemma {:induction false} NewlinesKeptIff(text: string, p: nat)
    requires p <= |text|
    ensures SameLines(Strip(text, p), text[p..]) <==> !AnyLost(text, p)
    decreases |text| - p
  {
    hide TokenAt, TokenEnd, Blanked, LosesNewline, SameLines;
    if p == |text| {
      SameLinesEmpty();
      assert text[p..] == "";
    } else {
      match TokenAt(text, p)
      case None =>
        NewlinesKeptIff(text, p + 1);
        SameLinesConcat([text[p]], Strip(text, p + 1), text[p..p + 1], text[p + 1..]);
        assert text[p..] == text[p..p + 1] + text[p + 1..];
        assert text[p..p + 1] == [text[p]];
        SameLinesSelf([text[p]]);
      case Some(t) =>
        var e := TokenEnd(text, p, t);
        NewlinesKeptIff(text, e);
        BlankedLines(text, p, t);
        SameLinesConcat(Blanked(text, p, t), Strip(text, e), text[p..e], text[e..]);
        assert text[p..] == text[p..e] + text[e..];
    }
  }

  lemma SameLinesEmpty()
    ensures SameLines("", "")
  {
  }

  lemma SameLinesSelf(s: string)
    ensures SameLines(s, s)
  {
  }

  /** A char literal of a newline: the output has a line less. */
  lemma NewlineLost()
    ensures Strip("'\n'", 0) == "   "
  {
    var s := "'\n'";
    assert TokenAt(s, 0) == Some(Char(3));
    assert Strip(s, 3) == "";
    assert Spaces(3) == "   ";
    assert Blanked(s, 0, Char(3)) == "   ";
    hide TokenAt;
  }

  // ------------------------------------------------------------------ the brace matcher

  /** Opening less closing braces. */
  function Depth(s: string): int {
    if s == "" then 0
    else Depth(Front(s)) + (if Last(s) == '{' then 1 else if Last(s) == '}' then -1 else 0)
  }

  lemma {:induction false} DepthExtend(s: string, i: nat, j: nat)
    requires i <= j < |s|
    ensures Depth(s[i..j + 1]) == Depth(s[i..j]) + (if s[j] == '{' then 1 else if s[j] == '}' then -1 else 0)
  {
    assert s[i..j + 1][..j - i] == s[i..j];
  }

  ghost predicate FirstBrace(clean: string, start: nat, i: nat) {
    start <= i < |clean| && clean[i] == '{' && forall k :: start <= k < i ==> clean[k] != '{'
  }

  /** `clean.find("{", start)`. */
  method FindBrace(clean: string, start: nat) returns (i: Option<nat>)
    ensures i.Some? ==> FirstBrace(clean, start, i.value)
    ensures i.None? ==> forall k :: start <= k < |clean| ==> clean[k] != '{'
  {
    var k := start;
    while k < |clean|
      invariant start <= k && forall j :: start <= j < k && j < |clean| ==> clean[j] != '{'
    {
      if clean[k] == '{' {
        return Some(k);
      }
      k := k + 1;
    }
    return None;
  }

  /** `body_span`: the shortest balanced block from the first brace at or after
      `start`, and none exactly when there is no brace or its block never balances. */
  method BodySpan(clean: string, start: nat) returns (span: Option<(nat, nat)>)
    ensures span.Some? ==>
      var (i, e) := span.value;
      && FirstBrace(clean, start, i) && i < e <= |clean| && Depth(clean[i..e]) == 0 && clean[e - 1] == '}'
      && forall j :: i < j < e ==> Depth(clean[i..j]) > 0
    ensures span.None? <==>
      forall i: nat :: FirstBrace(clean, start, i) ==> forall j :: i < j <= |clean| ==> Depth(clean[i..j]) > 0
  {
    var first := FindBrace(clean, start);
    if first.None? {
      return None;
    }
    var i := first.value;
    assert forall k: nat :: FirstBrace(clean, start, k) ==> k == i;
    var depth, j := 0, i;
    assert clean[i..i] == "" && Depth("") == 0;
    while j < |clean|
      invariant i <= j <= |clean| && depth == Depth(clean[i..j])
      invariant forall k :: i < k <= j ==> Depth(clean[i..k]) > 0
    {
      hide Depth;
      DepthExtend(clean, i, j);
      if clean[j] == '{' {
        depth := depth + 1;
      } else if clean[j] == '}' {
        depth := depth - 1;
        if depth == 0 {
          return Some((i, j + 1));
        }
      }
      j := j + 1;
    }
    return None;
  }
}
