/**
 The username protocol of internal/credential/parse.go: a master account name that may be
 followed by `_keyword_value` segments, and the printer that produces such names.

 The tokenizer of the program cuts at every `_keyword_`. Here its meaning is given by
 `Split`, a recursive function, and the main theorem says that `Split` is the exact inverse
 of writing the pieces one after the other (`Render`) on canonical decompositions. The
 round trip of printed usernames is a special case of it.
 */
module Credential {
  import opened Text

  datatype Mode = Unset | Rotate | Sticky

  const MIN_TTL_MINUTES := 1
  const MAX_TTL_MINUTES := 180
  const DEFAULT_TTL := 10
  const SID_MIN_LEN := 4
  const SID_MAX_LEN := 64
  const MID_LEN := 64

  datatype ParseError = InvalidUsername | InvalidAccount | InvalidSID

  datatype Result<+T> = Ok(value: T) | Err(error: ParseError)

  datatype Parsed = Parsed(account: string, sid: string, ttlMinutes: int, ttlSet: bool, mode: Mode, raw: string)

  const KEYWORDS: seq<string> := ["sid", "time", "mode", "zone", "st", "city"]
  const RESERVED: seq<string> := ["_sid_", "_time_", "_mode_", "_zone_"]

  // ---------------------------------------------------------------- names and session ids

  predicate MatchesAccountRe(name: string) {
    && name != ""
    && IsAlnum(name[0])
    && forall i | 0 <= i < |name| :: IsAlnum(name[i]) || name[i] == '.' || name[i] == '_' || name[i] == '-'
  }

  predicate ValidAccountName(name: string) {
    && MatchesAccountRe(name)
    && forall k | 0 <= k < |RESERVED| :: !Contains(ToLower(name), RESERVED[k])
  }

  predicate ValidSID(sid: string) {
    SID_MIN_LEN <= |sid| <= SID_MAX_LEN && forall i | 0 <= i < |sid| :: IsAlnum(sid[i])
  }

  /** The older form `account-mid_<64 hex digits>`. */
  predicate MidForm(raw: string) {
    && |raw| > 5 + MID_LEN
    && OccursAt(raw, "-mid_", |raw| - MID_LEN - 5)
    && (forall i | |raw| - MID_LEN <= i < |raw| :: IsHex(raw[i]))
    && '\n' !in raw[..|raw| - MID_LEN - 5]
  }

  function FormatUsername(account: string, sid: string, ttlMin: int, mode: Mode): string {
    if mode == Rotate || sid == "" then account
    else account + "_sid_" + sid + "_time_" + Decimal(if ttlMin <= 0 then DEFAULT_TTL else ttlMin)
  }

  // ---------------------------------------------------------------- tokens

  function Token(kw: string): string { "_" + kw + "_" }

  predicate TokenAt(s: string, i: int) {
    exists k | 0 <= k < |KEYWORDS| :: OccursAt(s, Token(KEYWORDS[k]), i)
  }

  predicate NoToken(s: string) {
    forall i | 0 <= i < |s| :: !TokenAt(s, i)
  }

  function FirstTokenFrom(s: string, i: nat): (r: int)
    requires i <= |s|
    ensures r == -1 || (i <= r < |s| && TokenAt(s, r))
    ensures forall j | i <= j < (if r < 0 then |s| else r) :: !TokenAt(s, j)
    decreases |s| - i
  {
    if i == |s| then -1 else if TokenAt(s, i) then i else FirstTokenFrom(s, i + 1)
  }

  /** The position of the leftmost `_keyword_`, or -1. */
  function FirstToken(s: string): (r: int)
    ensures r == -1 || (0 <= r < |s| && TokenAt(s, r))
    ensures forall j | 0 <= j < (if r < 0 then |s| else r) :: !TokenAt(s, j)
    ensures r < 0 <==> NoToken(s)
  {
    FirstTokenFrom(s, 0)
  }

  /** The scan of the source: one strings.Index per keyword, keeping the lowest hit. */
  method NextKeywordIndex(s: string) returns (lowest: int)
    ensures lowest == FirstToken(s)
  {
    lowest := -1;
    for k := 0 to |KEYWORDS|
      invariant lowest == -1 || (0 <= lowest < |s| && TokenAt(s, lowest))
      invariant forall m, j | 0 <= m < k && 0 <= j < (if lowest < 0 then |s| else lowest) ::
        !OccursAt(s, Token(KEYWORDS[m]), j)
    {
      var i := IndexOf(s, Token(KEYWORDS[k]));
      if i >= 0 && (lowest < 0 || i < lowest) {
        lowest := i;
      }
    }
    assert forall j | 0 <= j < (if lowest < 0 then |s| else lowest) :: !TokenAt(s, j);
  }

  lemma OccursChars(s: string, t: string, i: int)
    requires OccursAt(s, t, i)
    ensures forall j | 0 <= j < |t| :: s[i + j] == t[j]
  {
    forall j | 0 <= j < |t| ensures s[i + j] == t[j] {
      assert s[i..i + |t|][j] == s[i + j];
    }
  }

  /** A token is told apart by the two characters after its first underscore. */
  lemma TokenChars(s: string, i: int)
    requires TokenAt(s, i)
    ensures 0 <= i && i + 4 <= |s| && s[i] == '_'
    ensures
      || (s[i + 1] == 's' && s[i + 2] == 'i' && OccursAt(s, Token("sid"), i))
      || (s[i + 1] == 't' && s[i + 2] == 'i' && OccursAt(s, Token("time"), i))
      || (s[i + 1] == 'm' && s[i + 2] == 'o' && OccursAt(s, Token("mode"), i))
      || (s[i + 1] == 'z' && s[i + 2] == 'o' && OccursAt(s, Token("zone"), i))
      || (s[i + 1] == 's' && s[i + 2] == 't' && OccursAt(s, Token("st"), i))
      || (s[i + 1] == 'c' && s[i + 2] == 'i' && OccursAt(s, Token("city"), i))
  {
    var k :| 0 <= k < |KEYWORDS| && OccursAt(s, Token(KEYWORDS[k]), i);
    var t := Token(KEYWORDS[k]);
    OccursChars(s, t, i);
    assert t[0] == '_' && t[1] == KEYWORDS[k][0] && t[2] == KEYWORDS[k][1];
    assert s[i + 0] == t[0] && s[i + 1] == t[1] && s[i + 2] == t[2];
  }

  /** The keyword whose token starts s. */
  function KeywordAt(s: string): (kw: string)
    requires TokenAt(s, 0)
    ensures kw in KEYWORDS && OccursAt(s, Token(kw), 0)
  {
    TokenChars(s, 0);
    if s[1] == 's' then (if s[2] == 'i' then "sid" else "st")
    else if s[1] == 't' then "time"
    else if s[1] == 'm' then "mode"
    else if s[1] == 'z' then "zone"
    else "city"
  }

  /** The segment a string starts with, its value up to the next token, and what follows. */
  function FirstSegment(rest: string): (r: (Segment, string))
    requires TokenAt(rest, 0)
    ensures |r.1| < |rest|
  {
    var kw := KeywordAt(rest);
    var s := rest[|kw| + 2..];
    var next := FirstToken(s);
    if next < 0 then (Segment(kw, s), "") else (Segment(kw, s[..next]), s[next..])
  }

  /** The segments of a string that is empty or starts with a token; [] for any other string. */
  function Tokenize(rest: string): seq<Segment>
    decreases |rest|
  {
    if !TokenAt(rest, 0) then [] else [FirstSegment(rest).0] + Tokenize(FirstSegment(rest).1)
  }

  function Split(raw: string): (string, seq<Segment>) {
    var i := FirstToken(raw);
    if i < 0 then (raw, []) else (raw[..i], Tokenize(raw[i..]))
  }

  lemma TokenInSuffix(s: string, i: nat)
    requires i <= |s| && TokenAt(s, i)
    ensures TokenAt(s[i..], 0)
  {
    var k :| 0 <= k < |KEYWORDS| && OccursAt(s, Token(KEYWORDS[k]), i);
    assert s[i..][0..|Token(KEYWORDS[k])|] == s[i..i + |Token(KEYWORDS[k])|];
    assert OccursAt(s[i..], Token(KEYWORDS[k]), 0);
  }

  method SplitAccount(raw: string) returns (account: string, rest: string)
    ensures account == Split(raw).0
    ensures account + rest == raw && (rest == "" || TokenAt(rest, 0))
    ensures Tokenize(rest) == Split(raw).1
  {
    var lowest := NextKeywordIndex(raw);
    if lowest < 0 {
      return raw, "";
    }
    TokenInSuffix(raw, lowest);
    return raw[..lowest], raw[lowest..];
  }

  function MatchKeywordFrom(s: string, k: nat): Option<string>
    requires k <= |KEYWORDS|
    decreases |KEYWORDS| - k
  {
    if k == |KEYWORDS| then None
    else if HasPrefix(s, KEYWORDS[k]) then Some(KEYWORDS[k])
    else MatchKeywordFrom(s, k + 1)
  }

  function MatchKeyword(s: string): Option<string> { MatchKeywordFrom(s, 0) }

  // ---------------------------------------------------------------- segments

  datatype Segment = Segment(kw: string, val: string)

  function RenderSegment(g: Segment): string { Token(g.kw) + g.val }

  function Render(segs: seq<Segment>): string {
    if segs == [] then "" else RenderSegment(segs[0]) + Render(segs[1..])
  }

  /** The value the source's map holds for kw: the last one written, "" when there is none. */
  function Lookup(segs: seq<Segment>, kw: string): string {
    if segs == [] then ""
    else if segs[|segs| - 1].kw == kw then segs[|segs| - 1].val
    else Lookup(segs[..|segs| - 1], kw)
  }

  predicate AllValued(segs: seq<Segment>) {
    forall i | 0 <= i < |segs| :: segs[i].val != ""
  }

  function Get(m: map<string, string>, kw: string): string {
    if kw in m then m[kw] else ""
  }

  /** The map answers every keyword with the last value written for it. */
  ghost predicate HoldsLastValues(m: map<string, string>, segs: seq<Segment>) {
    forall kw :: Get(m, kw) == Lookup(segs, kw)
  }

  predicate CanonicalSegments(segs: seq<Segment>) {
    forall i | 0 <= i < |segs| ::
      && segs[i].kw in KEYWORDS
      && NoToken(if i == |segs| - 1 then segs[i].val else segs[i].val + "_")
  }

  /** A decomposition in which no piece hides a token, not even one that would be completed
      by the underscore that starts the next piece. */
  predicate Canonical(account: string, segs: seq<Segment>) {
    && NoToken(if segs == [] then account else account + "_")
    && CanonicalSegments(segs)
  }

  // ---------------------------------------------------------------- facts about tokens

  lemma KeywordShape(k: nat)
    requires k < |KEYWORDS|
    ensures 2 <= |KEYWORDS[k]| <= 4
    ensures '_' !in KEYWORDS[k]
  {
  }

  lemma OccursFromChars(s: string, t: string, i: int)
    requires 0 <= i && i + |t| <= |s|
    requires forall j | 0 <= j < |t| :: s[i + j] == t[j]
    ensures OccursAt(s, t, i)
  {
    assert s[i..i + |t|] == t;
  }

  lemma TokenBounds(s: string, kw: string, i: int)
    requires OccursAt(s, Token(kw), i)
    ensures 0 <= i && i + |kw| + 2 <= |s| && s[i] == '_' && s[i + |kw| + 1] == '_' && s[i + 1..i + |kw| + 1] == kw
  {
    var t := Token(kw);
    OccursChars(s, t, i);
    assert s[i + 0] == t[0] && s[i + (|kw| + 1)] == t[|kw| + 1];
    assert forall j | 0 <= j < |kw| :: s[i + (1 + j)] == t[1 + j] == kw[j];
  }

  /** A token begins and ends with an underscore, and has none between. */
  lemma TokenEnds(s: string, i: int) returns (kw: string)
    requires TokenAt(s, i)
    ensures kw in KEYWORDS && '_' !in kw
    ensures 0 <= i && i + |kw| + 2 <= |s| && s[i] == '_' && s[i + |kw| + 1] == '_' && s[i + 1..i + |kw| + 1] == kw
    ensures OccursAt(s, Token(kw), i)
  {
    var k :| 0 <= k < |KEYWORDS| && OccursAt(s, Token(KEYWORDS[k]), i);
    kw := KEYWORDS[k];
    KeywordShape(k);
    TokenBounds(s, kw, i);
  }

  lemma KeywordsPrefixFree(s: string, a: string, b: string)
    requires a in KEYWORDS && b in KEYWORDS && HasPrefix(s, a) && HasPrefix(s, b)
    ensures a == b
  {
    var i :| 0 <= i < |KEYWORDS| && KEYWORDS[i] == a;
    var j :| 0 <= j < |KEYWORDS| && KEYWORDS[j] == b;
    OccursChars(s, a, 0);
    OccursChars(s, b, 0);
    assert a[0] == b[0] && a[1] == b[1];
  }

  lemma TokenFrom(s: string, kw: string, i: nat)
    requires kw in KEYWORDS && OccursAt(s, Token(kw), i)
    ensures TokenAt(s, i)
  {
    var k :| 0 <= k < |KEYWORDS| && KEYWORDS[k] == kw;
    assert OccursAt(s, Token(KEYWORDS[k]), i);
  }

  lemma OccursInFront(x: string, y: string, t: string, i: int, n: nat)
    requires n <= |x| && n <= |y| && x[..n] == y[..n] && OccursAt(x, t, i) && i + |t| <= n
    ensures OccursAt(y, t, i)
  {
    assert x[i..i + |t|] == x[..n][i..i + |t|] == y[i..i + |t|];
  }

  /** A token that starts inside a lies in a + "_": it cannot run past the underscore after a,
      because keywords contain no underscore. */
  lemma TokenInFirstPart(a: string, b: string, i: nat)
    requires i < |a| && b != "" && b[0] == '_'
    requires TokenAt(a + b, i)
    ensures TokenAt(a + "_", i)
  {
    var kw := TokenEnds(a + b, i);
    assert (a + b)[|a|] == '_';
    assert i + |kw| + 2 <= |a| + 1;
    assert (a + b)[..|a| + 1] == a + "_" == (a + "_")[..|a| + 1];
    OccursInFront(a + b, a + "_", Token(kw), i, |a| + 1);
    TokenFrom(a + "_", kw, i);
  }

  lemma TokenInExtension(a: string, b: string, i: int)
    requires TokenAt(a, i)
    ensures TokenAt(a + b, i)
  {
    var k :| 0 <= k < |KEYWORDS| && OccursAt(a, Token(KEYWORDS[k]), i);
    OccursChars(a, Token(KEYWORDS[k]), i);
    OccursFromChars(a + b, Token(KEYWORDS[k]), i);
  }

  lemma NoUnderscoreNoToken(s: string)
    requires '_' !in s
    ensures NoToken(s) && NoToken(s + "_")
  {
    forall i | 0 <= i < |s + "_"| ensures !TokenAt(s + "_", i) && !TokenAt(s, i) {
      if TokenAt(s + "_", i) {
        TokenChars(s + "_", i);
      }
      if TokenAt(s, i) {
        TokenChars(s, i);
      }
    }
  }

  // ---------------------------------------------------------------- Split inverts Render

  lemma TokenParts(s: string, kw: string)
    requires HasPrefix(s, "_")
    ensures HasPrefix(s, Token(kw)) <==> HasPrefix(s[1..], kw) && HasPrefix(s[1 + |kw|..], "_")
  {
    if HasPrefix(s, Token(kw)) {
      OccursChars(s, Token(kw), 0);
      assert s[1..][0..|kw|] == Token(kw)[1..1 + |kw|] == kw;
      assert s[1 + |kw|..][0..1] == [s[1 + |kw|]] == "_";
    }
    if HasPrefix(s[1..], kw) && HasPrefix(s[1 + |kw|..], "_") {
      assert s[0..|kw| + 2] == s[0..1] + s[1..][0..|kw|] + s[1 + |kw|..][0..1];
    }
  }

  lemma KeywordIs(s: string, kw: string)
    requires kw in KEYWORDS && HasPrefix(s, Token(kw)) && TokenAt(s, 0)
    ensures KeywordAt(s) == kw
  {
    var other := KeywordAt(s);
    assert s[0..1] == "_" by { OccursChars(s, Token(kw), 0); }
    TokenParts(s, kw);
    TokenParts(s, other);
    KeywordsPrefixFree(s[1..], kw, other);
  }

  /** A string made of a token and more starts with that token, and no other. */
  lemma StartsWithToken(kw: string, more: string)
    requires kw in KEYWORDS
    ensures var s := Token(kw) + more;
      TokenAt(s, 0) && KeywordAt(s) == kw && s[|kw| + 2..] == more && s[0] == '_'
  {
    var s := Token(kw) + more;
    assert s[0..|Token(kw)|] == Token(kw) && s[|Token(kw)|..] == more;
    assert TokenAt(s, 0) by {
      var k :| 0 <= k < |KEYWORDS| && KEYWORDS[k] == kw;
      assert OccursAt(s, Token(KEYWORDS[k]), 0);
    }
    KeywordIs(s, kw);
  }

  lemma RenderStartsWithToken(segs: seq<Segment>)
    requires segs != [] && segs[0].kw in KEYWORDS
    ensures TokenAt(Render(segs), 0)
    ensures KeywordAt(Render(segs)) == segs[0].kw
    ensures Render(segs)[|segs[0].kw| + 2..] == segs[0].val + Render(segs[1..])
    ensures Render(segs)[0] == '_'
  {
    assert Render(segs) == Token(segs[0].kw) + (segs[0].val + Render(segs[1..]));
    StartsWithToken(segs[0].kw, segs[0].val + Render(segs[1..]));
  }

  lemma TokenShifted(a: string, b: string)
    requires TokenAt(b, 0)
    ensures TokenAt(a + b, |a|)
  {
    var k :| 0 <= k < |KEYWORDS| && OccursAt(b, Token(KEYWORDS[k]), 0);
    OccursChars(b, Token(KEYWORDS[k]), 0);
    OccursFromChars(a + b, Token(KEYWORDS[k]), |a|);
  }

  lemma FirstTokenIs(s: string, n: nat)
    requires n < |s| && TokenAt(s, n) && forall i | 0 <= i < n :: !TokenAt(s, i)
    ensures FirstToken(s) == n
  {
  }

  /** Where the next token starts after a piece of a canonical decomposition. */
  lemma FirstTokenAfterPiece(piece: string, segs: seq<Segment>)
    requires CanonicalSegments(segs)
    requires NoToken(if segs == [] then piece else piece + "_")
    ensures FirstToken(piece + Render(segs)) == if segs == [] then -1 else |piece|
  {
    if segs == [] {
      assert piece + Render(segs) == piece;
    } else {
      var b := Render(segs);
      assert TokenAt(b, 0) && b != "" && b[0] == '_' by { RenderStartsWithToken(segs); }
      forall i | 0 <= i < |piece| ensures !TokenAt(piece + b, i) {
        if TokenAt(piece + b, i) { TokenInFirstPart(piece, b, i); }
      }
      TokenShifted(piece, b);
      FirstTokenIs(piece + b, |piece|);
    }
  }

  lemma EmptyHasNoSegments()
    ensures !TokenAt("", 0) && Tokenize("") == []
  {
  }

  lemma FirstSegmentIs(g: Segment, r: string)
    requires g.kw in KEYWORDS && FirstToken(g.val + r) == if r == "" then -1 else |g.val|
    ensures var s := Token(g.kw) + (g.val + r); TokenAt(s, 0) && FirstSegment(s) == (g, r)
  {
    StartsWithToken(g.kw, g.val + r);
    if r == "" {
      assert g.val + r == g.val;
    } else {
      assert (g.val + r)[..|g.val|] == g.val && (g.val + r)[|g.val|..] == r;
    }
  }

  /** A segment in front of segments. */
  lemma TokenizeCons(g: Segment, r: string)
    requires g.kw in KEYWORDS && FirstToken(g.val + r) == if r == "" then -1 else |g.val|
    ensures Tokenize(Token(g.kw) + (g.val + r)) == [g] + Tokenize(r)
  {
    FirstSegmentIs(g, r);
  }

  lemma CanonicalTail(segs: seq<Segment>)
    requires CanonicalSegments(segs) && segs != []
    ensures segs[0].kw in KEYWORDS && CanonicalSegments(segs[1..])
    ensures NoToken(if segs[1..] == [] then segs[0].val else segs[0].val + "_")
    ensures segs[1..] != [] ==> segs[1].kw in KEYWORDS
  {
    var tail := segs[1..];
    forall i | 0 <= i < |tail|
      ensures tail[i].kw in KEYWORDS && NoToken(if i == |tail| - 1 then tail[i].val else tail[i].val + "_")
    {
      assert tail[i] == segs[i + 1];
    }
  }

  lemma HeadAndTail(segs: seq<Segment>) returns (g: Segment, tail: seq<Segment>)
    requires segs != []
    ensures segs == [g] + tail && g == segs[0] && tail == segs[1..]
    ensures Render(segs) == Token(g.kw) + (g.val + Render(tail))
  {
    g, tail := segs[0], segs[1..];
    assert Token(g.kw) + g.val + Render(tail) == Token(g.kw) + (g.val + Render(tail));
  }

  lemma TokenizeRest(g: Segment, tail: seq<Segment>)
    requires g.kw in KEYWORDS && CanonicalSegments(tail) && NoToken(if tail == [] then g.val else g.val + "_")
    requires tail != [] ==> tail[0].kw in KEYWORDS
    ensures Tokenize(Token(g.kw) + (g.val + Render(tail))) == [g] + Tokenize(Render(tail))
  {
    if tail != [] { RenderStartsWithToken(tail); }
    FirstTokenAfterPiece(g.val, tail);
    TokenizeCons(g, Render(tail));
  }

  lemma {:induction false} TokenizeRender(segs: seq<Segment>)
    requires CanonicalSegments(segs)
    ensures Tokenize(Render(segs)) == segs
  {
    if segs == [] {
      EmptyHasNoSegments();
    } else {
      var g, tail := HeadAndTail(segs);
      CanonicalTail(segs);
      TokenizeRender(tail);
      TokenizeRest(g, tail);
    }
  }

  lemma CanonicalCons(g: Segment, segs: seq<Segment>)
    requires g.kw in KEYWORDS && CanonicalSegments(segs)
    requires NoToken(if segs == [] then g.val else g.val + "_")
    ensures CanonicalSegments([g] + segs)
    ensures Render([g] + segs) == RenderSegment(g) + Render(segs)
  {
    var all := [g] + segs;
    assert all[1..] == segs;
    forall i | 1 <= i < |all| ensures all[i] == segs[i - 1] {}
  }

  lemma PieceBeforeFirstToken(s: string)
    requires FirstToken(s) >= 0
    ensures NoToken(s[..FirstToken(s)] + "_")
  {
    var n := FirstToken(s);
    TokenChars(s, n);
    var p := s[..n] + "_";
    assert p + s[n + 1..] == s;
    forall i | 0 <= i < |p| ensures !TokenAt(p, i) {
      if TokenAt(p, i) {
        TokenChars(p, i);
        TokenInExtension(p, s[n + 1..], i);
      }
    }
  }

  lemma CutAtToken(s: string, next: int)
    requires next == FirstToken(s) && 0 <= next
    ensures next <= |s| && s == s[..next] + s[next..] && s[next..] != "" && TokenAt(s[next..], 0)
    ensures NoToken(s[..next] + "_")
  {
    TokenInSuffix(s, next);
    PieceBeforeFirstToken(s);
  }

  /** The cut itself: the value reaches up to the next token, or to the end. */
  predicate IsCut(s: string, val: string, tail: string) {
    var next := FirstToken(s);
    if next < 0 then val == s && tail == "" else val == s[..next] && tail == s[next..]
  }

  lemma CutSegment(rest: string) returns (g: Segment, tail: string)
    requires TokenAt(rest, 0)
    ensures g.kw == KeywordAt(rest) && IsCut(rest[|g.kw| + 2..], g.val, tail)
    ensures Tokenize(rest) == [g] + Tokenize(tail)
  {
    g, tail := FirstSegment(rest).0, FirstSegment(rest).1;
  }

  lemma CutFacts(s: string, val: string, tail: string)
    requires IsCut(s, val, tail)
    ensures s == val + tail && (tail == "" || TokenAt(tail, 0)) && NoToken(if tail == "" then val else val + "_")
  {
    if FirstToken(s) >= 0 { CutAtToken(s, FirstToken(s)); }
  }

  lemma Rejoin(rest: string, n: nat, val: string, tail: string)
    requires n <= |rest| && rest[n..] == val + tail
    ensures rest == rest[..n] + val + tail
  {
  }

  lemma SegmentFacts(rest: string, g: Segment, tail: string)
    requires TokenAt(rest, 0) && g.kw == KeywordAt(rest) && IsCut(rest[|g.kw| + 2..], g.val, tail)
    ensures rest == RenderSegment(g) + tail && |tail| < |rest|
    ensures tail == "" || TokenAt(tail, 0)
    ensures NoToken(if tail == "" then g.val else g.val + "_")
  {
    CutFacts(rest[|g.kw| + 2..], g.val, tail);
    assert rest[..|g.kw| + 2] == Token(g.kw);
    Rejoin(rest, |g.kw| + 2, g.val, tail);
  }

  /** One round of the tokenizer: a segment g is cut off and the tail starts with a token. */
  lemma TokenizeStep(rest: string) returns (g: Segment, tail: string)
    requires TokenAt(rest, 0)
    ensures rest == RenderSegment(g) + tail && |tail| < |rest|
    ensures tail == "" || TokenAt(tail, 0)
    ensures g.kw in KEYWORDS && NoToken(if tail == "" then g.val else g.val + "_")
    ensures Tokenize(rest) == [g] + Tokenize(tail)
    ensures g.kw == KeywordAt(rest)
    ensures var s := rest[|g.kw| + 2..]; var next := FirstToken(s);
      if next < 0 then g.val == s && tail == "" else g.val == s[..next] && tail == s[next..]
  {
    g, tail := CutSegment(rest);
    SegmentFacts(rest, g, tail);
  }

  lemma {:induction false} TokenizeCanonical(rest: string)
    requires rest == "" || TokenAt(rest, 0)
    ensures Render(Tokenize(rest)) == rest
    ensures CanonicalSegments(Tokenize(rest))
    ensures Tokenize(rest) == [] <==> rest == ""
    decreases |rest|
  {
    if rest == "" {
      assert !TokenAt(rest, 0);
    } else {
      var g, tail := TokenizeStep(rest);
      TokenizeCanonical(tail);
      CanonicalCons(g, Tokenize(tail));
    }
  }

  lemma CutIsCanonical(account: string, rest: string)
    requires NoToken(account + "_") && TokenAt(rest, 0)
    ensures Canonical(account, Tokenize(rest)) && account + Render(Tokenize(rest)) == account + rest
  {
    TokenizeCanonical(rest);
  }

  /** Every raw name is its account followed by its segments, and no piece hides a token. */
  lemma SplitIsCanonical(raw: string)
    ensures Split(raw).0 + Render(Split(raw).1) == raw
    ensures Canonical(Split(raw).0, Split(raw).1)
  {
    var i := FirstToken(raw);
    if i < 0 {
      assert raw + "" == raw;
    } else {
      CutAtToken(raw, i);
      CutIsCanonical(raw[..i], raw[i..]);
    }
  }

  /** Splitting gives back exactly the decompositions that are canonical, and only those. */
  lemma SplitInvertsRender(account: string, segs: seq<Segment>)
    ensures Split(account + Render(segs)) == (account, segs) <==> Canonical(account, segs)
  {
    SplitIsCanonical(account + Render(segs));
    if Canonical(account, segs) {
      FirstTokenAfterPiece(account, segs);
      TokenizeRender(segs);
      if segs == [] {
        assert account + Render(segs) == account;
      } else {
        assert (account + Render(segs))[..|account|] == account;
        assert (account + Render(segs))[|account|..] == Render(segs);
      }
    }
  }

  // ---------------------------------------------------------------- parsing

  lemma MatchKeywordFirst(s: string, k: nat)
    requires k <= |KEYWORDS|
    ensures var m := MatchKeywordFrom(s, k);
      && (m.Some? ==> m.value in KEYWORDS && HasPrefix(s, m.value))
      && (m.None? ==> forall j | k <= j < |KEYWORDS| :: !HasPrefix(s, KEYWORDS[j]))
    decreases |KEYWORDS| - k
  {
    if k < |KEYWORDS| { MatchKeywordFirst(s, k + 1); }
  }

  /** The source's first-match test of a keyword agrees with the token that starts the string. */
  lemma MatchKeywordIsToken(s: string)
    requires HasPrefix(s, "_")
    ensures var m := MatchKeyword(s[1..]);
      && (m.Some? ==> m.value in KEYWORDS && 1 + |m.value| <= |s|)
      && (TokenAt(s, 0) <==> m.Some? && HasPrefix(s[1 + |m.value|..], "_"))
      && (TokenAt(s, 0) ==> m.value == KeywordAt(s))
  {
    var m := MatchKeyword(s[1..]);
    MatchKeywordFirst(s[1..], 0);
    if m.Some? {
      TokenParts(s, m.value);
      if HasPrefix(s[1 + |m.value|..], "_") {
        assert exists k | 0 <= k < |KEYWORDS| :: KEYWORDS[k] == m.value && OccursAt(s, Token(KEYWORDS[k]), 0);
      }
    }
    if TokenAt(s, 0) {
      TokenParts(s, KeywordAt(s));
      KeywordsPrefixFree(s[1..], m.value, KeywordAt(s));
    }
  }

  lemma NoUnderscoreInFront(s: string)
    requires !HasPrefix(s, "_")
    ensures !TokenAt(s, 0)
  {
    if TokenAt(s, 0) {
      TokenChars(s, 0);
      OccursFromChars(s, "_", 0);
    }
  }

  /** The first part of the scanning loop: an underscore, a keyword, an underscore. */
  method ReadKeyword(rest: string) returns (r: Option<string>)
    requires rest != ""
    ensures r.Some? <==> TokenAt(rest, 0)
    ensures r.Some? ==> r.value == KeywordAt(rest) && |r.value| + 2 <= |rest|
  {
    var s := rest;
    if !HasPrefix(s, "_") {
      NoUnderscoreInFront(rest);
      return None;
    }
    MatchKeywordIsToken(rest);
    s := s[1..];
    var m := MatchKeyword(s);
    if m.None? {
      return None;
    }
    var kw := m.value;
    s := s[|kw|..];
    assert s == rest[1 + |kw|..];
    if !HasPrefix(s, "_") {
      return None;
    }
    return m;
  }

  /** One round of the scanning loop: keyword, underscore, value up to the next token. */
  method ReadSegment(rest: string) returns (r: Result<Segment>, s: string)
    requires rest != ""
    ensures !TokenAt(rest, 0) ==> r.Err?
    ensures TokenAt(rest, 0) ==>
      && Tokenize(rest) != []
      && (r.Ok? <==> Tokenize(rest)[0].val != "")
      && (r.Ok? ==> Tokenize(rest) == [r.value] + Tokenize(s) && |s| < |rest| && (s == "" || TokenAt(s, 0)))
    ensures r.Err? ==> r.error == InvalidUsername
  {
    s := rest;
    var kw := ReadKeyword(s);
    if kw.None? {
      return Err(InvalidUsername), s;
    }
    ghost var g, tail := TokenizeStep(rest);
    s := s[|kw.value| + 2..];
    var next := NextKeywordIndex(s);
    var val: string;
    if next < 0 {
      val, s := s, "";
    } else {
      val, s := s[..next], s[next..];
    }
    assert g == Segment(kw.value, val) && tail == s;
    if val == "" {
      return Err(InvalidUsername), s;
    }
    return Ok(Segment(kw.value, val)), s;
  }

  /** What is read so far grows by one segment, and the map with it. */
  lemma ScanExtends(done: seq<Segment>, g: Segment, more: seq<Segment>, out: map<string, string>)
    requires HoldsLastValues(out, done)
    ensures HoldsLastValues(out[g.kw := g.val], done + [g])
    ensures done + ([g] + more) == done + [g] + more
  {
    assert (done + [g])[..|done|] == done;
    forall kw ensures Get(out[g.kw := g.val], kw) == Lookup(done + [g], kw) {
      assert Get(out, kw) == Lookup(done, kw);
    }
  }

  /** The state of the scanning loop: the segments read, what is left, and the map. */
  ghost predicate Scanned(rest: string, done: seq<Segment>, s: string, out: map<string, string>) {
    && done + Tokenize(s) == Tokenize(rest)
    && (if done == [] then s == rest else (s == "" || TokenAt(s, 0)) && TokenAt(rest, 0))
    && AllValued(done) && HoldsLastValues(out, done)
  }

  lemma ScanGoesOn(rest: string, done: seq<Segment>, before: string, g: Segment, s: string, out: map<string, string>)
    requires Scanned(rest, done, before, out) && TokenAt(before, 0) && g.val != ""
    requires Tokenize(before) == [g] + Tokenize(s) && (s == "" || TokenAt(s, 0))
    ensures Scanned(rest, done + [g], s, out[g.kw := g.val])
  {
    ScanExtends(done, g, Tokenize(s), out);
  }

  /** A segment without a value, or text that is no segment, makes the whole input invalid. */
  lemma ScanFails(rest: string, done: seq<Segment>, s: string, out: map<string, string>)
    requires Scanned(rest, done, s, out) && s != ""
    requires TokenAt(s, 0) ==> Tokenize(s) != [] && Tokenize(s)[0].val == ""
    ensures (rest == "" || TokenAt(rest, 0)) ==> !AllValued(Tokenize(rest))
  {
    if TokenAt(s, 0) {
      assert Tokenize(rest)[|done|] == Tokenize(s)[0];
    }
  }

  lemma ScanEnds(rest: string, done: seq<Segment>, out: map<string, string>)
    requires Scanned(rest, done, "", out)
    ensures (rest == "" || TokenAt(rest, 0)) && AllValued(Tokenize(rest)) && HoldsLastValues(out, Tokenize(rest))
  {
    EmptyHasNoSegments();
    assert done + [] == done;
  }

  /** The scanner of the source, with its four error returns. It fails exactly when the input
      does not start with a token or some segment has an empty value; on inputs that
      SplitAccount hands over only the latter can happen. */
  method ParseFields(rest: string) returns (r: Result<map<string, string>>)
    ensures r.Ok? <==> (rest == "" || TokenAt(rest, 0)) && AllValued(Tokenize(rest))
    ensures r.Ok? ==> HoldsLastValues(r.value, Tokenize(rest))
    ensures r.Err? ==> r.error == InvalidUsername
  {
    var out: map<string, string> := map[];
    var s := rest;
    ghost var done: seq<Segment> := [];
    while s != ""
      invariant Scanned(rest, done, s, out)
      decreases |s|
    {
      ghost var before := s;
      var segment;
      segment, s := ReadSegment(s);
      if segment.Err? {
        ScanFails(rest, done, before, out);
        return Err(segment.error);
      }
      ScanGoesOn(rest, done, before, segment.value, s, out);
      out := out[segment.value.kw := segment.value.val];
      done := done + [segment.value];
    }
    ScanEnds(rest, done, out);
    return Ok(out);
  }

  function ModeOf(v: string): Option<Mode> {
    if ToLower(v) == "rotate" then Some(Rotate)
    else if ToLower(v) == "sticky" then Some(Sticky)
    else None
  }

  /** What the segments of a name mean: the last value of sid, time and mode counts. */
  function DecodeSegments(account: string, segs: seq<Segment>, raw: string): Result<Parsed> {
    var sid, time, mode := Lookup(segs, "sid"), Lookup(segs, "time"), Lookup(segs, "mode");
    if sid != "" && !ValidSID(sid) then Err(InvalidSID)
    else if time != "" && Atoi(time).None? then Err(InvalidUsername)
    else if mode != "" && ModeOf(mode).None? then Err(InvalidUsername)
    else Ok(Parsed(account, sid,
                   if time == "" then 0 else Atoi(time).value, time != "",
                   if mode == "" then Unset else ModeOf(mode).value, raw))
  }

  /** An account that may be followed by segments. */
  function DecodeName(raw: string): Result<Parsed> {
    var (account, segs) := Split(raw);
    if !ValidAccountName(account) then Err(InvalidAccount)
    else if !AllValued(segs) then Err(InvalidUsername)
    else DecodeSegments(account, segs, raw)
  }

  /** A name of the older form. */
  function DecodeMid(account: string, digits: string, raw: string): Result<Parsed> {
    if !ValidAccountName(account) then Err(InvalidAccount)
    else Ok(Parsed(account, ToLower(digits), 0, false, Sticky, raw))
  }

  /** The meaning of a user name. */
  function Decode(raw0: string): Result<Parsed> {
    var raw := TrimSpace(raw0);
    if raw == "" then Err(InvalidUsername)
    else if MidForm(raw) then DecodeMid(raw[..|raw| - MID_LEN - 5], raw[|raw| - MID_LEN..], raw)
    else DecodeName(raw)
  }

  /** The last part of Parse: the fields sid, time and mode are read from the map. */
  method FillFields(account: string, fields: map<string, string>, raw: string, ghost segs: seq<Segment>)
      returns (r: Result<Parsed>)
    requires HoldsLastValues(fields, segs)
    ensures r == DecodeSegments(account, segs, raw)
  {
    var p := Parsed(account, "", 0, false, Unset, raw);
    var v := Get(fields, "sid");
    if v != "" {
      if !ValidSID(v) {
        return Err(InvalidSID);
      }
      p := p.(sid := v);
    }
    v := Get(fields, "time");
    if v != "" {
      var n := Atoi(v);
      if n.None? {
        return Err(InvalidUsername);
      }
      p := p.(ttlMinutes := n.value, ttlSet := true);
    }
    v := Get(fields, "mode");
    if v != "" {
      var mode := ModeOf(v);
      if mode.None? {
        return Err(InvalidUsername);
      }
      p := p.(mode := mode.value);
    }
    return Ok(p);
  }

  /** The second half of Parse. */
  method ParseName(raw: string) returns (r: Result<Parsed>)
    ensures r == DecodeName(raw)
  {
    var account, rest := SplitAccount(raw);
    if !ValidAccountName(account) {
      return Err(InvalidAccount);
    }
    if rest == "" {
      assert !TokenAt(rest, 0);
      return Ok(Parsed(account, "", 0, false, Unset, raw));
    }
    var parsed := ParseFields(rest);
    if parsed.Err? {
      return Err(parsed.error);
    }
    r := FillFields(account, parsed.value, raw, Split(raw).1);
  }

  method Parse(raw0: string) returns (r: Result<Parsed>)
    ensures r == Decode(raw0)
  {
    var raw := TrimSpace(raw0);
    if raw == "" {
      return Err(InvalidUsername);
    }
    if MidForm(raw) {
      var m1, m2 := raw[..|raw| - MID_LEN - 5], raw[|raw| - MID_LEN..];
      if !ValidAccountName(m1) {
        return Err(InvalidAccount);
      }
      return Ok(Parsed(m1, ToLower(m2), 0, false, Sticky, raw));
    }
    r := ParseName(raw);
  }

  // ---------------------------------------------------------------- account defaults

  /** The lifetime a request gets: its own, or else the account's default, or else ten minutes,
      cut to the account's maximum; that lies within three hours, whatever the account says. */
  predicate LifetimeRule(p: Parsed, defaultTTL: int, maxTTL: int, ttl: int) {
    var most := if 0 < maxTTL <= 180 then maxTTL else 180;
    && 1 <= ttl <= most
    && (p.ttlSet && 1 <= p.ttlMinutes <= most ==> ttl == p.ttlMinutes)
    && (p.ttlSet && p.ttlMinutes < 1 ==> ttl == 1)
    && (p.ttlSet && p.ttlMinutes > most ==> ttl == most)
    && (!p.ttlSet && 1 <= defaultTTL <= most ==> ttl == defaultTTL)
    && (!p.ttlSet && defaultTTL > most ==> ttl == most)
    && (!p.ttlSet && defaultTTL < 1 ==> ttl == if most < 10 then most else 10)
  }

  /** Mode and lifetime after the account's defaults are applied. */
  function WithDefaults(p: Parsed, defaultMode: Mode, defaultTTL: int, maxTTL: int): (r: Parsed)
    ensures p.mode != Unset ==> r.mode == p.mode
    ensures p.mode == Unset ==> r.mode == if p.sid == "" && defaultMode != Sticky then Rotate else Sticky
    ensures r.sid == if r.mode == Rotate then "" else p.sid
    ensures LifetimeRule(p, defaultTTL, maxTTL, r.ttlMinutes)
    ensures r.account == p.account && r.ttlSet == p.ttlSet && r.raw == p.raw
  {
    assert p.mode.Unset? || p.mode.Rotate? || p.mode.Sticky?;
    var mode := if p.mode != Unset then p.mode
                else if p.sid != "" || defaultMode == Sticky then Sticky else Rotate;
    var wanted := if p.ttlSet then p.ttlMinutes else if defaultTTL <= 0 then DEFAULT_TTL else defaultTTL;
    var most := if maxTTL <= 0 || maxTTL > MAX_TTL_MINUTES then MAX_TTL_MINUTES else maxTTL;
    var ttl := if wanted > most then most else if wanted < MIN_TTL_MINUTES then MIN_TTL_MINUTES else wanted;
    p.(mode := mode, sid := if mode == Rotate then "" else p.sid, ttlMinutes := ttl)
  }

  method ApplyDefaults(p0: Parsed, defaultMode0: Mode, defaultTTL0: int, maxTTL0: int) returns (p: Parsed)
    ensures p == WithDefaults(p0, defaultMode0, defaultTTL0, maxTTL0)
  {
    p := p0;
    var defaultMode, defaultTTL, maxTTL := defaultMode0, defaultTTL0, maxTTL0;
    if defaultTTL <= 0 {
      defaultTTL := DEFAULT_TTL;
    }
    if maxTTL <= 0 || maxTTL > MAX_TTL_MINUTES {
      maxTTL := MAX_TTL_MINUTES;
    }
    if defaultMode != Sticky {
      defaultMode := Rotate;
    }
    if p.mode == Unset {
      if p.sid != "" {
        p := p.(mode := Sticky);
      } else {
        p := p.(mode := defaultMode);
      }
    }
    if p.mode == Rotate {
      p := p.(sid := "");
    }
    if !p.ttlSet {
      p := p.(ttlMinutes := defaultTTL);
    }
    if p.ttlMinutes < MIN_TTL_MINUTES {
      p := p.(ttlMinutes := MIN_TTL_MINUTES);
    }
    if p.ttlMinutes > maxTTL {
      p := p.(ttlMinutes := maxTTL);
    }
  }

  // ---------------------------------------------------------------- round trip

  /** The lifetime FormatUsername prints. */
  function PrintedTTL(ttlMin: int): int { if ttlMin <= 0 then DEFAULT_TTL else ttlMin }

  /** What Decode does on a name made of an account and segments. */
  lemma DecodeRendered(account: string, segs: seq<Segment>)
    requires ValidAccountName(account) && CanonicalSegments(segs) && AllValued(segs)
    requires var raw := account + Render(segs); TrimSpace(raw) == raw && !MidForm(raw)
    ensures var raw := account + Render(segs);
      if Canonical(account, segs) then Decode(raw) == DecodeSegments(account, segs, raw)
      else Decode(raw).Ok? ==> Decode(raw).value.account != account
  {
    var raw := account + Render(segs);
    SplitInvertsRender(account, segs);
    if !Canonical(account, segs) && Split(raw).0 == account {
      SplitIsCanonical(raw);
      var other := Split(raw).1;
      assert Render(other) == raw[|account|..] == Render(segs);
      TokenizeRender(segs);
      TokenizeRender(other);
    }
  }

  function StickySegments(sid: string, ttl: nat): seq<Segment> {
    [Segment("sid", sid), Segment("time", Decimal(ttl))]
  }

  lemma StickySegmentsFacts(account: string, sid: string, ttl: nat)
    requires ValidSID(sid)
    ensures var segs := StickySegments(sid, ttl);
      && CanonicalSegments(segs) && AllValued(segs)
      && account + Render(segs) == account + "_sid_" + sid + "_time_" + Decimal(ttl)
  {
    var segs := StickySegments(sid, ttl);
    NoUnderscoreNoToken(sid);
    NoUnderscoreNoToken(Decimal(ttl));
    assert segs[1..] == [segs[1]];
    assert segs[1..][1..] == [];
    assert KEYWORDS[0] == "sid" && KEYWORDS[1] == "time";
    assert Render(segs[1..]) == RenderSegment(segs[1]) + "" == "_time_" + Decimal(ttl);
    assert Render(segs) == RenderSegment(segs[0]) + Render(segs[1..]);
  }

  /** Segments in front of a printed session do not change what is looked up. */
  lemma StickyLookup(front: seq<Segment>, sid: string, ttl: nat)
    ensures var segs := front + StickySegments(sid, ttl);
      Lookup(segs, "sid") == sid && Lookup(segs, "time") == Decimal(ttl)
      && Lookup(segs, "mode") == Lookup(front, "mode")
  {
    var g := StickySegments(sid, ttl);
    var one := front + [g[0]];
    assert front + g == one + [g[1]];
    assert (one + [g[1]])[..|one|] == one && one[..|front|] == front;
    assert "sid"[0] != "time"[0] && "mode"[0] != "time"[0] && "sid"[0] != "mode"[0];
  }

  lemma Pow10Of19()
    ensures Pow10(19) == 1_0000_0000_0000_0000_000
  {
    assert Pow10(4) == 1_0000;
    assert Pow10(8) == 1_0000_0000;
    assert Pow10(12) == 1_0000_0000_0000;
    assert Pow10(16) == 1_0000_0000_0000_0000;
  }

  /** A printed sticky name is never mistaken for the older mid form. */
  lemma PrintedIsNotMid(front: string, ttl: nat)
    requires ttl < INT64_LIMIT
    ensures !MidForm(front + "_time_" + Decimal(ttl))
  {
    var raw := front + "_time_" + Decimal(ttl);
    assert ttl < Pow10(19) by { Pow10Of19(); }
    DecimalLength(ttl, 19);
    var i := |raw| - |Decimal(ttl)| - 1;
    assert raw[i] == '_';
  }

  /** A printed name is neither trimmed nor of the mid form. */
  lemma PrintedStands(account: string, sid: string, ttl: nat)
    requires account != "" && IsAlnum(account[0]) && ttl < INT64_LIMIT
    ensures var raw := account + "_sid_" + sid + "_time_" + Decimal(ttl);
      raw != "" && TrimSpace(raw) == raw && !MidForm(raw)
  {
    var raw := account + "_sid_" + sid + "_time_" + Decimal(ttl);
    PrintedIsNotMid(account + "_sid_" + sid, ttl);
    assert raw[0] == account[0] && raw[|raw| - 1] == Decimal(ttl)[|Decimal(ttl)| - 1];
    TrimKeeps(raw);
  }

  /** The round trip of printed sticky names, with its exact condition: the printed name is read
      back to the same account, session and lifetime if and only if no `_keyword_` occurs in the
      account name or is completed by the underscore that follows it. */
  lemma StickyRoundTrip(account: string, sid: string, ttlMin: int, mode: Mode)
    requires ValidAccountName(account) && ValidSID(sid) && mode != Rotate && ttlMin < INT64_LIMIT
    ensures var raw, ttl := FormatUsername(account, sid, ttlMin, mode), if ttlMin <= 0 then 10 else ttlMin;
      var r := Decode(raw);
      && raw == account + "_sid_" + sid + "_time_" + Decimal(ttl)
      && (NoToken(account + "_") <==>
          r.Ok? && r.value.account == account && r.value.sid == sid && r.value.ttlMinutes == ttl)
      && (NoToken(account + "_") ==> r == Ok(Parsed(account, sid, ttl, true, Unset, raw)))
  {
    var ttl: nat := PrintedTTL(ttlMin);
    var raw := FormatUsername(account, sid, ttlMin, mode);
    var segs := StickySegments(sid, ttl);
    StickySegmentsFacts(account, sid, ttl);
    PrintedStands(account, sid, ttl);
    DecodeRendered(account, segs);
    StickyLookup([], sid, ttl);
    assert [] + segs == segs && Lookup([], "mode") == "";
    AtoiDecimal(ttl);
  }

  /** The same for names without a session: here the older form is a second obstacle. */
  lemma RotateRoundTrip(account: string, sid: string, ttlMin: int, mode: Mode)
    requires ValidAccountName(account) && (mode == Rotate || sid == "")
    ensures var r := Decode(FormatUsername(account, sid, ttlMin, mode));
      && (NoToken(account) && !MidForm(account) <==>
          r.Ok? && r.value.account == account)
      && (NoToken(account) && !MidForm(account) ==> r == Ok(Parsed(account, "", 0, false, Unset, account)))
  {
    TrimKeeps(account);
    if !MidForm(account) {
      assert account + Render([]) == account;
      DecodeRendered(account, []);
    }
  }

  /** A printed sticky name, parsed and completed with any account defaults, is sticky on the
      same session, and keeps its lifetime when the account allows it. */
  lemma StickyNameStaysSticky(account: string, sid: string, ttlMin: int, mode: Mode, m: Mode, d: int, most: int)
    requires ValidAccountName(account) && ValidSID(sid) && mode != Rotate && ttlMin < INT64_LIMIT
    requires NoToken(account + "_")
    ensures var r := Decode(FormatUsername(account, sid, ttlMin, mode));
      && r.Ok?
      && var p := WithDefaults(r.value, m, d, most);
         && p.account == account && p.mode == Sticky && p.sid == sid
         && (PrintedTTL(ttlMin) <= MAX_TTL_MINUTES && (0 < most ==> PrintedTTL(ttlMin) <= most)
             ==> p.ttlMinutes == PrintedTTL(ttlMin))
  {
    StickyRoundTrip(account, sid, ttlMin, mode);
  }

  lemma ForeignDecodes(account: string, g: Segment, sid: string, ttl: nat, raw: string)
    requires g.kw in ["st", "city"] && ValidSID(sid) && ttl < INT64_LIMIT
    ensures DecodeSegments(account, [g] + StickySegments(sid, ttl), raw)
      == Ok(Parsed(account, sid, ttl, true, Unset, raw))
  {
    StickyLookup([g], sid, ttl);
    assert Lookup([g], "mode") == "" by { assert [g][..0] == [] && g.kw[0] != "mode"[0]; }
    AtoiDecimal(ttl);
  }

  lemma ForeignPieces(full: string, g: Segment, sid: string, ttl: nat)
    requires g.kw in ["st", "city"] && g.val != "" && '_' !in g.val && ValidSID(sid)
    ensures var tail := StickySegments(sid, ttl);
      && CanonicalSegments([g] + tail) && AllValued([g] + tail) && Render([g] + tail) == RenderSegment(g) + Render(tail)
      && full + Render(tail) == full + "_sid_" + sid + "_time_" + Decimal(ttl)
  {
    StickySegmentsFacts(full, sid, ttl);
    NoUnderscoreNoToken(g.val);
    assert g.kw in KEYWORDS by { assert KEYWORDS[4] == "st" && KEYWORDS[5] == "city"; }
    CanonicalCons(g, StickySegments(sid, ttl));
  }

  lemma AppendAll(a: string, b: string, c: string, d: string)
    ensures a + (b + c + d) == a + b + c + d
  {
  }

  /** The printed name of an account that ends in a segment with a keyword validation does not
      reserve is read as a session of a different, shorter account. */
  lemma ForeignSegmentChangesAccount(account: string, kw: string, v: string, sid: string, ttl: nat, mode: Mode)
    requires kw in ["st", "city"] && v != "" && '_' !in v
    requires ValidAccountName(account) && NoToken(account + "_") && ValidSID(sid)
    requires mode != Rotate && 0 < ttl < INT64_LIMIT
    ensures var r := Decode(FormatUsername(account + Token(kw) + v, sid, ttl, mode));
      r.Ok? && r.value.account == account && r.value.sid == sid && r.value.ttlMinutes == ttl
  {
    var g, tail := Segment(kw, v), StickySegments(sid, ttl);
    var full := account + Token(kw) + v;
    ForeignPieces(full, g, sid, ttl);
    assert full[0] == account[0];
    PrintedStands(full, sid, ttl);
    AppendAll(account, Token(kw), v, Render(tail));
    DecodeRendered(account, [g] + tail);
    ForeignDecodes(account, g, sid, ttl, account + Render([g] + tail));
  }

  lemma LoweredDigits(digits: string)
    requires |digits| == MID_LEN && forall i | 0 <= i < |digits| :: IsHex(digits[i])
    ensures ValidSID(ToLower(digits))
  {
    LowerASCII(digits);
    var sid := ToLower(digits);
    forall i | 0 <= i < |sid| ensures IsAlnum(sid[i]) {
      assert sid[i] == LowerByte(digits[i]) && IsHex(digits[i]);
    }
  }

  /** Whatever parses has a valid account and a session id that is absent or valid. */
  lemma DecodedIsValid(raw: string)
    requires Decode(raw).Ok?
    ensures ValidAccountName(Decode(raw).value.account)
    ensures Decode(raw).value.sid == "" || ValidSID(Decode(raw).value.sid)
  {
    var t := TrimSpace(raw);
    if MidForm(t) {
      var digits := t[|t| - MID_LEN..];
      forall i | 0 <= i < |digits| ensures IsHex(digits[i]) {
        assert IsHex(t[|t| - MID_LEN + i]);
      }
      LoweredDigits(digits);
    }
  }

  lemma OneCharacterIsValid(x: char)
    requires IsAlnum(x)
    ensures ValidAccountName([x])
  {
    LowerASCII([x]);
    forall k | 0 <= k < |RESERVED| ensures !Contains(ToLower([x]), RESERVED[k]) {
      assert |RESERVED[k]| >= 5;
    }
  }

  /** A name is trimmed of whole characters: the two bytes of U+00A0 go, but one of them alone is
      no white space, and the name that keeps it is not that of an account. */
  lemma TrimsWholeCharacters(x: char)
    requires IsAlnum(x)
    ensures var raw := [x, 0xC2 as char, 0xA0 as char]; Decode(raw).Ok? && Decode(raw).value.account == [x]
    ensures Decode([x, 0xA0 as char]) == Err(InvalidAccount)
  {
    var whole, part := [x, 0xC2 as char, 0xA0 as char], [x, 0xA0 as char];
    assert TrailingSpace(whole) == 2 && TrailingSpace(part) == 0;
    assert whole[..1] == [x] && TrimLeft(whole) == whole && TrimLeft(part) == part;
    TrimKeeps([x]);
    NoUnderscoreNoToken([x]);
    NoUnderscoreNoToken(part);
    OneCharacterIsValid(x);
  }
}
