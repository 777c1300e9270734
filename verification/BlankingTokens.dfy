/** Which characters make a token of the blanker and where each ends, in terms of the
    text alone. */
module BlankingTokens {
  import opened Prelude
  import opened Blanking

  /** `[A-Za-z0-9_]`, by code point. */
  predicate Identifier(c: char) {
    var n := c as int;
    65 <= n <= 90 || 97 <= n <= 122 || 48 <= n <= 57 || n == 95
  }

  // ---------------------------------------------------------- what begins a token

  /** A raw string of `h` hashes whose body begins at `body`: perhaps a `b` or a `c`, then
      an `r`, the hashes and a quote, with nothing of an identifier before it. */
  ghost predicate RawForm(text: string, p: nat, h: nat, body: nat) {
    && p + h + 2 <= body <= p + h + 3 && body <= |text|
    && (body == p + h + 3 ==> text[p] == 'b' || text[p] == 'c')
    && text[body - h - 2] == 'r' && text[body - 1] == '"'
    && (forall i :: body - h - 1 <= i < body - 1 ==> text[i] == '#')
    && (p > 0 ==> !Identifier(text[p - 1]))
  }

  /** A character between quotes that is neither a quote nor a backslash, or a backslash
      and any character but a newline between quotes. */
  predicate CharForm(text: string, p: nat, size: nat) {
    && p < |text| && p + size <= |text| && text[p] == '\''
    && ((size == 3 && text[p + 1] != '\'' && text[p + 1] != '\\' && text[p + 2] == '\'')
        || (size == 4 && text[p + 1] == '\\' && text[p + 2] != '\n' && text[p + 3] == '\''))
  }

  lemma {:induction false} HashRunIs(text: string, p: nat, h: nat)
    requires p <= |text|
    ensures p + h < |text| && text[p + h] != '#' && (forall i :: p <= i < p + h ==> text[i] == '#') ==>
      HashRun(text, p) == h
    ensures forall i :: p <= i < p + HashRun(text, p) ==> text[i] == '#'
    decreases |text| - p
  {
    if Has(text, p, '#') {
      HashRunIs(text, p + 1, if h > 0 then h - 1 else 0);
    }
  }

  lemma RawAtIs(text: string, p: nat, h: nat, body: nat)
    requires p < |text|
    ensures RawAt(text, p) == Some(Raw(h, body)) <==> RawForm(text, p, h, body)
  {
    hide HashRun;
    var r := if Has(text, p, 'b') || Has(text, p, 'c') then p + 1 else p;
    if r + 1 <= |text| {
      HashRunIs(text, r + 1, h);
    }
  }

  /** What begins at a position, read off the text: a raw string before all else, a char
      literal, a plain string at its quote, and the two comment openers. */
  lemma TokensByForm(text: string, p: nat)
    requires p < |text|
    ensures forall h: nat, body: nat ::
      TokenAt(text, p) == Some(Raw(h, body)) <==> RawForm(text, p, h, body)
    ensures forall size: nat :: TokenAt(text, p) == Some(Char(size)) <==> CharForm(text, p, size)
    ensures TokenAt(text, p) == Some(Str) <==> text[p] == '"'
    ensures TokenAt(text, p) == Some(Line) <==> p + 1 < |text| && text[p] == '/' && text[p + 1] == '/'
    ensures TokenAt(text, p) == Some(Block) <==> p + 1 < |text| && text[p] == '/' && text[p + 1] == '*'
  {
    RawStarts(text, p);
    hide RawAt, RawForm;
    forall h: nat, body: nat ensures TokenAt(text, p) == Some(Raw(h, body)) <==> RawForm(text, p, h, body) {
      RawAtIs(text, p, h, body);
    }
  }

  lemma RawStarts(text: string, p: nat)
    requires p < |text|
    ensures RawAt(text, p).Some? ==> text[p] == 'r' || text[p] == 'b' || text[p] == 'c'
  {
    hide HashRun;
  }

  // --------------------------------------------------------------- where they end

  /** The backslashes that end right before `k`, none counted before `p`. */
  function Slashes(text: string, p: nat, k: nat): nat
    requires k <= |text|
    decreases k
  {
    if k > p && text[k - 1] == '\\' then 1 + Slashes(text, p, k - 1) else 0
  }

  /** A quote of the body opened before `p` that no backslash escapes: the backslashes
      right before it pair off. */
  predicate Unescaped(text: string, p: nat, k: nat) {
    p <= k < |text| && text[k] == '"' && Slashes(text, p, k) % 2 == 0
  }

  lemma {:induction false} SlashesBounded(text: string, p: nat, k: nat)
    requires p <= k <= |text|
    ensures Slashes(text, p, k) <= k - p
    ensures forall i :: k - Slashes(text, p, k) <= i < k ==> text[i] == '\\'
    decreases k
  {
    if k > p && text[k - 1] == '\\' {
      SlashesBounded(text, p, k - 1);
    }
  }

  lemma {:induction false} SlashesSkipOne(text: string, p: nat, k: nat)
    requires p < k <= |text| && text[p] != '\\'
    ensures Slashes(text, p, k) == Slashes(text, p + 1, k)
    decreases k
  {
    if k > p + 1 {
      SlashesSkipOne(text, p, k - 1);
    }
  }

  lemma {:induction false} SlashesSkipPair(text: string, p: nat, k: nat)
    requires p + 2 <= k <= |text| && text[p] == '\\'
    ensures Slashes(text, p, k) % 2 == Slashes(text, p + 2, k) % 2
    decreases k
  {
    if k > p + 2 {
      SlashesSkipPair(text, p, k - 1);
    } else {
      assert Slashes(text, p, p) == 0 && Slashes(text, p, p + 1) == 1;
    }
  }

  /** `e` is past the first quote from `p` on that no backslash escapes, or the text's end
      where there is none. */
  ghost predicate EndsString(text: string, p: nat, e: nat) {
    || (p < e && Unescaped(text, p, e - 1) && forall k: nat :: k < e - 1 ==> !Unescaped(text, p, k))
    || (e == |text| && forall k: nat :: !Unescaped(text, p, k))
  }

  lemma {:induction false} StringEndsAtQuote(text: string, p: nat)
    requires p <= |text|
    ensures EndsString(text, p, StringEnd(text, p))
    decreases |text| - p
  {
    if p < |text| && text[p] == '\\' {
      if p + 1 < |text| {
        StringEndsAtQuote(text, p + 2);
        forall k: nat | k != p + 1 ensures Unescaped(text, p, k) <==> Unescaped(text, p + 2, k) {
          if p + 2 <= k < |text| {
            SlashesSkipPair(text, p, k);
          }
        }
        assert Slashes(text, p, p) == 0 && Slashes(text, p, p + 1) == 1;
      }
    } else if p < |text| && text[p] != '"' {
      StringEndsAtQuote(text, p + 1);
      forall k: nat ensures Unescaped(text, p, k) <==> Unescaped(text, p + 1, k) {
        if p + 1 <= k < |text| {
          SlashesSkipOne(text, p, k);
        }
      }
    } else if p < |text| {
      assert Slashes(text, p, p) == 0;
    }
  }

  predicate IsMark(text: string, k: nat) {
    k + 1 < |text| && ((text[k] == '/' && text[k + 1] == '*') || (text[k] == '*' && text[k + 1] == '/'))
  }

  /** Where the reader stands after the first `n` of these marks, read from `p`. */
  function ReadTo(p: nat, marks: seq<nat>, n: nat): nat
    requires n <= |marks|
  {
    if n == 0 then p else marks[n - 1] + 2
  }

  /** The comment marks read left to right from `p`, none skipped and none overlapping. */
  ghost predicate MarksFrom(text: string, p: nat, marks: seq<nat>) {
    forall i :: 0 <= i < |marks| ==>
      ReadTo(p, marks, i) <= marks[i] && IsMark(text, marks[i]) && Markless(text, ReadTo(p, marks, i), marks[i])
  }

  /** Openers less closers among the first `n` marks. */
  function Balance(text: string, marks: seq<nat>, n: nat): int
    requires n <= |marks|
  {
    if n == 0 then 0
    else Balance(text, marks, n - 1) + (if marks[n - 1] < |text| && text[marks[n - 1]] == '/' then 1 else -1)
  }

  lemma NextMarkIs(text: string, p: nat)
    requires p <= |text|
    ensures var q := NextMark(text, p);
            && (q < |text| ==> IsMark(text, q)) && Markless(text, p, q)
            && (q < |text| ==> (Opens(text, q) <==> text[q] == '/'))
  {
    forall k: nat | p <= k < NextMark(text, p) ensures !IsMark(text, k) {
      assert !Opens(text, k) && !Closes(text, k);
    }
  }

  lemma {:induction false} BalanceShift(text: string, q: nat, rest: seq<nat>, n: nat)
    requires n <= |rest|
    ensures Balance(text, [q] + rest, n + 1) ==
              (if q < |text| && text[q] == '/' then 1 else -1) + Balance(text, rest, n)
  {
    if n > 0 {
      BalanceShift(text, q, rest, n - 1);
    }
  }

  lemma ReadToShift(p: nat, q: nat, rest: seq<nat>, n: nat)
    requires n <= |rest|
    ensures ReadTo(p, [q] + rest, 0) == p
    ensures ReadTo(p, [q] + rest, n + 1) == ReadTo(q + 2, rest, n)
  {
  }

  /** No mark from `lo` up to `hi`. */
  ghost predicate Markless(text: string, lo: nat, hi: nat) { forall k: nat :: lo <= k < hi ==> !IsMark(text, k) }

  lemma MarksPrepend(text: string, p: nat, q: nat, rest: seq<nat>)
    requires p <= q && IsMark(text, q) && MarksFrom(text, q + 2, rest) && Markless(text, p, q)
    ensures MarksFrom(text, p, [q] + rest)
  {
    hide IsMark, ReadTo, Markless;
    var marks := [q] + rest;
    ReadToShift(p, q, rest, 0);
    forall i | 0 <= i < |marks|
      ensures ReadTo(p, marks, i) <= marks[i] && IsMark(text, marks[i])
      ensures Markless(text, ReadTo(p, marks, i), marks[i])
    {
      if i > 0 {
        ReadToShift(p, q, rest, i - 1);
        assert marks[i] == rest[i - 1];
      }
    }
  }

  /** `e` is past the mark at which openers less closers, read left to right from `p`
      with `depth` comments open, first reach zero, or the text's end where they never
      do; `marks` are the marks read. */
  ghost predicate EndsBlock(text: string, p: nat, depth: nat, marks: seq<nat>, e: nat) {
    var left := depth + Balance(text, marks, |marks|);
    && MarksFrom(text, p, marks)
    && Open(text, depth, marks)
    && ((left == 0 && e == ReadTo(p, marks, |marks|))
        || (left > 0 && e == |text| && Markless(text, ReadTo(p, marks, |marks|), |text|)))
  }

  lemma {:induction false} BlockEndsAtBalance(text: string, p: nat, depth: nat) returns (marks: seq<nat>)
    requires p <= |text| && depth > 0
    ensures EndsBlock(text, p, depth, marks, BlockEnd(text, p, depth))
    decreases |text| - p
  {
    hide NextMark, BlockEnd, EndsBlock, IsMark, Opens, Closes, Markless;
    BlockJumps(text, p, depth);
    NextMarkIs(text, p);
    var q := NextMark(text, p);
    if q == |text| {
      marks := [];
      BlockAtEnd(text, p, depth);
    } else {
      var after: nat := if Opens(text, q) then depth + 1 else depth - 1;
      MarkStep(text, q, depth);
      var rest: seq<nat> := [];
      if after == 0 {
        NothingRead(text, q + 2);
      } else {
        rest := BlockEndsAtBalance(text, q + 2, after);
      }
      marks := [q] + rest;
      BlockCarries(text, p, q, depth, after, rest, BlockEnd(text, p, depth));
    }
  }

  lemma NothingRead(text: string, p: nat)
    ensures EndsBlock(text, p, 0, [], p)
  {
  }

  lemma BlockAtEnd(text: string, p: nat, depth: nat)
    requires depth > 0 && Markless(text, p, |text|)
    ensures BlockEnd(text, |text|, depth) == |text| && EndsBlock(text, p, depth, [], |text|)
  {
  }

  lemma MarkStep(text: string, q: nat, depth: nat)
    requires q < |text| && depth > 0 && (Opens(text, q) || Closes(text, q))
    ensures q + 2 <= |text|
    ensures BlockEnd(text, q, depth) == BlockEnd(text, q + 2, if Opens(text, q) then depth + 1 else depth - 1)
    ensures BlockEnd(text, q + 2, 0) == q + 2
  {
  }

  /** The balance stays positive before the last of the marks. */
  ghost predicate Open(text: string, depth: int, marks: seq<nat>) {
    forall i :: 0 <= i < |marks| ==> depth + Balance(text, marks, i) > 0
  }

  lemma OpenCarries(text: string, q: nat, depth: int, rest: seq<nat>)
    requires q < |text| && depth > 0
    requires Open(text, if text[q] == '/' then depth + 1 else depth - 1, rest)
    ensures Open(text, depth, [q] + rest)
  {
    var marks := [q] + rest;
    forall i | 0 <= i < |marks| ensures depth + Balance(text, marks, i) > 0 {
      if i > 0 {
        BalanceShift(text, q, rest, i - 1);
      }
    }
  }

  /** The marks read from past `q`, with `q` before them. */
  lemma BlockCarries(text: string, p: nat, q: nat, depth: nat, after: nat, rest: seq<nat>, e: nat)
    requires p <= q && IsMark(text, q) && Markless(text, p, q)
    requires depth > 0 && after == (if text[q] == '/' then depth + 1 else depth - 1)
    requires EndsBlock(text, q + 2, after, rest, e)
    ensures EndsBlock(text, p, depth, [q] + rest, e)
  {
    hide MarksFrom, Balance, ReadTo, Markless, Open;
    MarksPrepend(text, p, q, rest);
    OpenCarries(text, q, depth, rest);
    ReadToShift(p, q, rest, |rest|);
    BalanceShift(text, q, rest, |rest|);
  }

  /** A quote and `h` hashes stand at `k`. */
  ghost predicate ClosesRaw(text: string, k: nat, h: nat) {
    k + h < |text| && text[k] == '"' && forall i :: k < i <= k + h ==> text[i] == '#'
  }

  /** `e` is past the first such closing from `body` on, or the text's end. */
  ghost predicate EndsRaw(text: string, body: nat, h: nat, e: nat) {
    || (body + h + 1 <= e && ClosesRaw(text, e - h - 1, h)
        && forall k: nat :: body <= k < e - h - 1 ==> !ClosesRaw(text, k, h))
    || (e == |text| && forall k: nat :: body <= k ==> !ClosesRaw(text, k, h))
  }

  ghost predicate EndsLine(text: string, p: nat, e: nat) {
    p <= e <= |text| && (e < |text| ==> text[e] == '\n') && forall k :: p <= k < e ==> text[k] != '\n'
  }

  /** Where each kind of token ends: a raw string past its first closing, a string past its
      first unescaped quote, a line comment at the newline, and a block comment past the
      mark that balances it. */
  lemma EndsByForm(text: string, p: nat, t: Token) returns (marks: seq<nat>)
    requires TokenAt(text, p) == Some(t)
    ensures match t
            case Raw(h, body) => EndsRaw(text, body, h, TokenEnd(text, p, t))
            case Char(size) => TokenEnd(text, p, t) == p + size
            case Str => EndsString(text, p + 1, TokenEnd(text, p, t))
            case Line => EndsLine(text, p, TokenEnd(text, p, t))
            case Block => EndsBlock(text, p + 2, 1, marks, TokenEnd(text, p, t))
  {
    hide RawAt, CharAt, Past, StringEnd, BlockEnd, EndsRaw, EndsString, EndsBlock;
    marks := [];
    match t
    case Raw(h, body) =>
      RawEnds(text, body, h);
    case Str =>
      StringEndsAtQuote(text, p + 1);
    case Block =>
      marks := BlockEndsAtBalance(text, p + 2, 1);
    case _ =>
  }

  lemma RawEnds(text: string, body: nat, h: nat)
    requires body <= |text|
    ensures EndsRaw(text, body, h, Past(text, "\"" + Hashes(h), body))
  {
    hide Past;
    PastIsFirst(text, "\"" + Hashes(h), body);
    forall k: nat ensures OccursAt(text, "\"" + Hashes(h), k) <==> ClosesRaw(text, k, h) {
      OccursIs(text, k, h);
    }
  }

  lemma OccursIs(text: string, k: nat, h: nat)
    ensures OccursAt(text, "\"" + Hashes(h), k) <==> ClosesRaw(text, k, h)
  {
    var closing := "\"" + Hashes(h);
    if k + h < |text| {
      var s := text[k..k + h + 1];
      if ClosesRaw(text, k, h) {
        assert s == closing;
      } else if s == closing {
        forall i | k < i <= k + h ensures text[i] == '#' {
          assert s[i - k] == closing[i - k];
        }
        assert s[0] == closing[0];
      }
    }
  }

  // ------------------------------------------------------------------ their blanks

  /** A string's body keeps the newlines no backslash escapes, and no other character. */
  lemma {:induction false} BodyKeepsNewlines(text: string, p: nat, e: nat, k: nat)
    requires p <= k < e <= |text|
    ensures BlankBody(text[p..e])[k - p] == if text[k] == '\n' && Slashes(text, p, k) % 2 == 0 then '\n' else ' '
    decreases e - p
  {
    var s := text[p..e];
    assert s[0] == text[p] && Slashes(text, p, p) == 0;
    if text[p] == '\\' {
      if p + 1 < e {
        assert s[2..] == text[p + 2..e] && Slashes(text, p, p + 1) == 1;
        if k >= p + 2 {
          BodyKeepsNewlines(text, p + 2, e, k);
          SlashesSkipPair(text, p, k);
        }
      }
    } else {
      assert s[1..] == text[p + 1..e];
      if k > p {
        BodyKeepsNewlines(text, p + 1, e, k);
        SlashesSkipOne(text, p, k);
      }
    }
  }

  /** What each kind of token leaves at each of its positions: a raw string and a block
      comment their newlines, a string those no backslash escapes, the others blanks only. */
  lemma BlanksByForm(text: string, p: nat, t: Token, k: nat)
    requires TokenAt(text, p) == Some(t) && p <= k < TokenEnd(text, p, t)
    ensures Blanked(text, p, t)[k - p] ==
              match t
              case Char(_) => ' '
              case Line => ' '
              case Str => if k > p && text[k] == '\n' && Slashes(text, p + 1, k) % 2 == 0 then '\n' else ' '
              case _ => if text[k] == '\n' then '\n' else ' '
  {
    hide TokenAt, TokenEnd, BlankBody, Slashes;
    var e := TokenEnd(text, p, t);
    if t.Str? && k > p {
      BodyKeepsNewlines(text, p + 1, e, k);
    }
  }

  // ------------------------------------------------------------- the braces

  /** The depth of a text is its opening braces less its closing ones. */
  lemma {:induction false} DepthCountsBraces(s: string)
    ensures Depth(s) + multiset(s)['}'] == multiset(s)['{']
  {
    if s != "" {
      DepthCountsBraces(Front(s));
      assert s == Front(s) + [Last(s)];
    }
  }
}
