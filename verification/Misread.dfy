/**
 What becomes of a printed sticky name that does not survive the round trip of
 internal/credential/parse.go: for every valid account, session id and lifetime, what Parse
 makes of what FormatUsername printed.
 */
module Misread {
  import opened Text
  import opened Credential

  // ---------------------------------------------------------------- the pieces of a printed name

  /** The piece of a name that the printed suffix follows. */
  function LastPiece(account: string, segs: seq<Segment>): string {
    if segs == [] then account else segs[|segs| - 1].val
  }

  /** When the underscore of `_sid_` completes a token `_kw_`, what that token leaves of the suffix:
      the rest of `_sid_` becomes part of its value, and a session id that is itself a keyword
      becomes the next token. */
  function Swallowed(kw: string, sid: string, digits: string): seq<Segment> {
    if sid in KEYWORDS then [Segment(kw, "sid"), Segment(sid, "time_" + digits)]
    else [Segment(kw, "sid_" + sid), Segment("time", digits)]
  }

  /** The last piece cut to its front, and more segments after it. */
  function Shortened(a: string, segs: seq<Segment>, front: string, more: seq<Segment>): (string, seq<Segment>) {
    if segs == [] then (front, more)
    else (a, segs[..|segs| - 1] + ([segs[|segs| - 1].(val := front)] + more))
  }

  /** The pieces of the printed name, from those of the account. */
  function Pieces(a: string, segs: seq<Segment>, sid: string, ttl: nat): (string, seq<Segment>) {
    var last := LastPiece(a, segs);
    var i := FirstToken(last + "_");
    if i < 0 then (a, segs + StickySegments(sid, ttl))
    else
      TokenChars(last + "_", i);
      Shortened(a, segs, last[..i], Swallowed(last[i + 1..], sid, Decimal(ttl)))
  }

  lemma {:induction false} RenderConcat(x: seq<Segment>, y: seq<Segment>)
    ensures Render(x + y) == Render(x) + Render(y)
  {
    if x == [] {
      assert x + y == y;
    } else {
      assert (x + y)[1..] == x[1..] + y;
      RenderConcat(x[1..], y);
    }
  }

  predicate Followed(segs: seq<Segment>) {
    forall i | 0 <= i < |segs| :: segs[i].kw in KEYWORDS && NoToken(segs[i].val + "_")
  }

  lemma CanonicalConcat(x: seq<Segment>, y: seq<Segment>)
    requires Followed(x) && CanonicalSegments(y) && y != []
    ensures CanonicalSegments(x + y)
  {
    var all := x + y;
    forall i | 0 <= i < |all|
      ensures all[i].kw in KEYWORDS && NoToken(if i == |all| - 1 then all[i].val else all[i].val + "_")
    {
      if i >= |x| { assert all[i] == y[i - |x|]; }
    }
  }

  lemma PrefixHasNoToken(x: string, y: string)
    requires NoToken(x + y)
    ensures NoToken(x)
  {
    forall i | 0 <= i < |x| ensures !TokenAt(x, i) {
      if TokenAt(x, i) { TokenInExtension(x, y, i); }
    }
  }

  lemma CutAtUnderscore(p: string, i: nat, rest: string)
    requires i + 1 <= |p| && p[i] == '_' && p[i + 1..] == rest
    ensures p == p[..i] + "_" + rest
  {
  }

  lemma TokenReachesEnd(p: string, i: int) returns (kw: string)
    requires TokenAt(p + "_", i) && !TokenAt(p, i)
    ensures kw in KEYWORDS && 0 <= i && i + 1 <= |p| && p[i] == '_' && p[i + 1..] == kw
  {
    var s := p + "_";
    var k :| 0 <= k < |KEYWORDS| && OccursAt(s, Token(KEYWORDS[k]), i);
    kw := KEYWORDS[k];
    if i + |kw| + 2 <= |p| {
      OccursChars(s, Token(kw), i);
      OccursFromChars(p, Token(kw), i);
    }
    TokenBounds(s, kw, i);
    assert p[i + 1..] == s[i + 1..i + |kw| + 1];
  }

  /** The only token that can end in the underscore after a piece without tokens. */
  lemma CompletedToken(p: string) returns (front: string, kw: string)
    requires NoToken(p) && !NoToken(p + "_")
    ensures kw in KEYWORDS && NoToken(front + "_") && p == front + "_" + kw
    ensures FirstToken(p + "_") == |front| && front == p[..|front|] && kw == p[|front| + 1..]
  {
    var i := FirstToken(p + "_");
    kw := TokenReachesEnd(p, i);
    front := p[..i];
    CutAtUnderscore(p, i, kw);
    PrefixHasNoToken(front + "_", kw);
  }

  lemma InnerToken(a: string, b: string, i: nat)
    requires '_' !in a && '_' !in b && TokenAt(a + "_" + b + "_", i)
    ensures b in KEYWORDS
  {
    var s := a + "_" + b + "_";
    var kw := TokenEnds(s, i);
    assert s[|a| + 1..|a| + 1 + |b|] == b;
    assert i == |a| && |kw| == |b|;
  }

  lemma NotInside(a: string, b: string, i: nat)
    requires '_' !in a && '_' !in b
    ensures !TokenAt(a + "_" + b, i)
  {
    if TokenAt(a + "_" + b, i) {
      var kw := TokenEnds(a + "_" + b, i);
    }
  }

  /** Two words joined by an underscore hold no token, and with one more underscore they do only
      if the second is a keyword. */
  lemma OneInnerUnderscore(a: string, b: string)
    requires '_' !in a && '_' !in b
    ensures NoToken(a + "_" + b)
    ensures b !in KEYWORDS ==> NoToken(a + "_" + b + "_")
  {
    var s := a + "_" + b;
    forall i | 0 <= i < |s + "_"| ensures !TokenAt(s, i) && (b !in KEYWORDS ==> !TokenAt(s + "_", i)) {
      if TokenAt(s, i) { NotInside(a, b, i); }
      if TokenAt(s + "_", i) { InnerToken(a, b, i); }
    }
  }

  lemma KeywordsHold()
    ensures "sid" in KEYWORDS && "time" in KEYWORDS && "mode" in KEYWORDS
    ensures forall kw | kw in KEYWORDS :: '_' !in kw
  {
    assert KEYWORDS[0] == "sid" && KEYWORDS[1] == "time" && KEYWORDS[2] == "mode";
    forall kw | kw in KEYWORDS ensures '_' !in kw {
      var k :| 0 <= k < |KEYWORDS| && KEYWORDS[k] == kw;
      KeywordShape(k);
    }
  }

  lemma TwoSegments(g: Segment, h: Segment)
    requires g.kw in KEYWORDS && h.kw in KEYWORDS && NoToken(g.val + "_") && NoToken(h.val)
    ensures CanonicalSegments([g, h]) && Render([g, h]) == RenderSegment(g) + RenderSegment(h)
  {
    assert [h] + [] == [h] && [g] + [h] == [g, h];
    CanonicalCons(h, []);
    CanonicalCons(g, [h]);
  }

  lemma SwallowedKeyword(kw: string, sid: string, digits: string)
    requires kw in KEYWORDS && sid in KEYWORDS && '_' !in digits
    ensures var segs := [Segment(kw, "sid"), Segment(sid, "time_" + digits)];
      CanonicalSegments(segs) && Render(segs) == Token(kw) + "sid" + (Token(sid) + ("time_" + digits))
  {
    NoUnderscoreNoToken("sid");
    OneInnerUnderscore("time", digits);
    assert "time" + "_" + digits == "time_" + digits;
    TwoSegments(Segment(kw, "sid"), Segment(sid, "time_" + digits));
  }

  lemma SwallowedOther(kw: string, sid: string, digits: string)
    requires kw in KEYWORDS && sid !in KEYWORDS && '_' !in sid && '_' !in digits
    ensures var segs := [Segment(kw, "sid_" + sid), Segment("time", digits)];
      CanonicalSegments(segs) && Render(segs) == Token(kw) + ("sid_" + sid) + ("_time_" + digits)
  {
    KeywordsHold();
    NoUnderscoreNoToken(digits);
    OneInnerUnderscore("sid", sid);
    assert "sid" + "_" + sid == "sid_" + sid;
    TwoSegments(Segment(kw, "sid_" + sid), Segment("time", digits));
  }

  lemma Spelled(kw: string, sid: string, digits: string)
    ensures Token(kw) + "sid" + (Token(sid) + ("time_" + digits)) == "_" + kw + ("_sid_" + sid + "_time_" + digits)
    ensures Token(kw) + ("sid_" + sid) + ("_time_" + digits) == "_" + kw + ("_sid_" + sid + "_time_" + digits)
  {
  }

  lemma SwallowedFacts(kw: string, sid: string, digits: string)
    requires kw in KEYWORDS && '_' !in sid && '_' !in digits
    ensures CanonicalSegments(Swallowed(kw, sid, digits))
    ensures Render(Swallowed(kw, sid, digits)) == "_" + kw + ("_sid_" + sid + "_time_" + digits)
  {
    Spelled(kw, sid, digits);
    if sid in KEYWORDS { SwallowedKeyword(kw, sid, digits); } else { SwallowedOther(kw, sid, digits); }
  }

  // ---------------------------------------------------------------- splitting a printed name

  lemma AllFollowed(a: string, segs: seq<Segment>)
    requires Canonical(a, segs) && NoToken(LastPiece(a, segs) + "_")
    ensures Followed(segs) && NoToken(a + "_")
  {
    forall i | 0 <= i < |segs| ensures segs[i].kw in KEYWORDS && NoToken(segs[i].val + "_") {
      if i == |segs| - 1 { assert segs[i].val == LastPiece(a, segs); }
    }
  }

  lemma ExtendCanonical(a: string, segs: seq<Segment>, y: seq<Segment>)
    requires Canonical(a, segs) && CanonicalSegments(y) && y != [] && NoToken(LastPiece(a, segs) + "_")
    ensures Canonical(a, segs + y)
  {
    AllFollowed(a, segs);
    CanonicalConcat(segs, y);
  }

  lemma ShortenCanonical(a: string, segs: seq<Segment>, front: string, y: seq<Segment>)
    requires Canonical(a, segs) && CanonicalSegments(y) && y != [] && NoToken(front + "_")
    ensures var (b, z) := Shortened(a, segs, front, y); Canonical(b, z)
  {
    if segs != [] {
      var n := |segs| - 1;
      CanonicalCons(segs[n].(val := front), y);
      CanonicalConcat(segs[..n], [segs[n].(val := front)] + y);
    }
  }

  lemma RenderCons(g: Segment, y: seq<Segment>)
    ensures Render([g] + y) == Token(g.kw) + g.val + Render(y)
    ensures y == [] ==> Render([g]) == Token(g.kw) + g.val
  {
    assert ([g] + y)[1..] == y;
    assert y == [] ==> [g] + y == [g];
  }

  lemma Regroup(a: string, x: string, t: string, front: string, head: string, rest: string)
    ensures a + (x + (t + (front + head))) + rest == a + (x + (t + front + (head + rest)))
  {
  }

  /** The last piece ends in a head that y starts with. */
  lemma ShortenedRenders(a: string, segs: seq<Segment>, front: string, head: string, y: seq<Segment>, rest: string)
    requires LastPiece(a, segs) == front + head && Render(y) == head + rest
    ensures var (b, z) := Shortened(a, segs, front, y); b + Render(z) == a + Render(segs) + rest
  {
    if segs == [] {
      assert a + Render(segs) == a;
    } else {
      var n := |segs| - 1;
      var x, g := segs[..n], segs[n];
      assert segs == x + [g];
      RenderConcat(x, [g]);
      RenderCons(g, []);
      RenderCons(g.(val := front), y);
      RenderConcat(x, [g.(val := front)] + y);
      Regroup(a, Render(x), Token(g.kw), front, head, rest);
    }
  }

  /** The suffix FormatUsername prints after the account. */
  function Suffix(sid: string, ttl: nat): string { "_sid_" + sid + "_time_" + Decimal(ttl) }

  lemma AppendedRenders(a: string, segs: seq<Segment>, y: seq<Segment>)
    ensures a + Render(segs + y) == a + Render(segs) + Render(y)
  {
    RenderConcat(segs, y);
    Regroup(a, Render(segs), "", "", "", Render(y));
  }

  lemma PiecesAppended(a: string, segs: seq<Segment>, y: seq<Segment>)
    requires Canonical(a, segs) && NoToken(LastPiece(a, segs) + "_") && CanonicalSegments(y) && y != []
    ensures Canonical(a, segs + y) && a + Render(segs + y) == a + Render(segs) + Render(y)
  {
    ExtendCanonical(a, segs, y);
    AppendedRenders(a, segs, y);
  }

  lemma PiecesShortened(a: string, segs: seq<Segment>, front: string, kw: string, sid: string, digits: string)
    requires Canonical(a, segs) && LastPiece(a, segs) == front + "_" + kw && NoToken(front + "_")
    requires kw in KEYWORDS && '_' !in sid && '_' !in digits
    ensures var (b, z) := Shortened(a, segs, front, Swallowed(kw, sid, digits));
      Canonical(b, z) && b + Render(z) == a + Render(segs) + ("_sid_" + sid + "_time_" + digits)
  {
    var y, rest := Swallowed(kw, sid, digits), "_sid_" + sid + "_time_" + digits;
    SwallowedFacts(kw, sid, digits);
    ShortenCanonical(a, segs, front, y);
    assert front + "_" + kw == front + ("_" + kw);
    ShortenedRenders(a, segs, front, "_" + kw, y, rest);
  }

  lemma LastHasNoToken(a: string, segs: seq<Segment>)
    requires Canonical(a, segs)
    ensures NoToken(LastPiece(a, segs))
  {
  }

  lemma SuffixSpelled(sid: string, digits: string)
    ensures (Token("sid") + sid) + (Token("time") + digits) == "_sid_" + sid + "_time_" + digits
  {
  }

  lemma SuffixRenders(sid: string, ttl: nat)
    requires ValidSID(sid)
    ensures CanonicalSegments(StickySegments(sid, ttl)) && StickySegments(sid, ttl) != []
    ensures Render(StickySegments(sid, ttl)) == Suffix(sid, ttl)
  {
    KeywordsHold();
    NoUnderscoreNoToken(sid);
    NoUnderscoreNoToken(Decimal(ttl));
    TwoSegments(Segment("sid", sid), Segment("time", Decimal(ttl)));
    SuffixSpelled(sid, Decimal(ttl));
  }

  lemma PiecesFit(a: string, segs: seq<Segment>, sid: string, ttl: nat)
    requires Canonical(a, segs) && ValidSID(sid)
    ensures var (b, z) := Pieces(a, segs, sid, ttl);
      Canonical(b, z) && b + Render(z) == a + Render(segs) + Suffix(sid, ttl)
  {
    var last := LastPiece(a, segs);
    if FirstToken(last + "_") < 0 {
      SuffixRenders(sid, ttl);
      PiecesAppended(a, segs, StickySegments(sid, ttl));
    } else {
      LastHasNoToken(a, segs);
      var front, kw := CompletedToken(last);
      PiecesShortened(a, segs, front, kw, sid, Decimal(ttl));
    }
  }

  /** The pieces of every printed sticky name, whatever its account looks like. */
  lemma SplitPrinted(account: string, sid: string, ttl: nat)
    requires ValidSID(sid)
    ensures Split(account + Suffix(sid, ttl)) == Pieces(Split(account).0, Split(account).1, sid, ttl)
  {
    var (a, segs) := Split(account);
    SplitIsCanonical(account);
    PiecesFit(a, segs, sid, ttl);
    var (b, z) := Pieces(a, segs, sid, ttl);
    SplitInvertsRender(b, z);
  }

  // ---------------------------------------------------------------- decoding a printed name

  lemma LookupTwo(x: seq<Segment>, g: Segment, h: Segment, kw: string)
    ensures Lookup(x + [g, h], kw) == if h.kw == kw then h.val else if g.kw == kw then g.val else Lookup(x, kw)
  {
    assert x + [g, h] == (x + [g]) + [h];
    assert ((x + [g]) + [h])[..|x| + 1] == x + [g] && (x + [g])[..|x|] == x;
  }

  /** Segments of which Parse ignores every one. */
  predicate Ignored(segs: seq<Segment>) {
    forall i | 0 <= i < |segs| :: segs[i].kw != "sid" && segs[i].kw != "time" && segs[i].kw != "mode"
  }

  lemma {:induction false} IgnoredLookup(segs: seq<Segment>)
    requires Ignored(segs)
    ensures Lookup(segs, "sid") == "" && Lookup(segs, "time") == "" && Lookup(segs, "mode") == ""
  {
    if segs != [] { IgnoredLookup(segs[..|segs| - 1]); }
  }

  lemma OccursShifted(x: string, y: string, t: string, n: nat)
    requires OccursAt(y, t, n)
    ensures OccursAt(x + y, t, |x| + n)
  {
    assert (x + y)[|x| + n..|x| + n + |t|] == y[n..n + |t|];
  }

  lemma {:induction false} SegmentOccurs(segs: seq<Segment>, i: nat) returns (at: nat)
    requires i < |segs|
    ensures OccursAt(Render(segs), Token(segs[i].kw), at)
  {
    var t, r := Token(segs[i].kw), Render(segs[1..]);
    assert Render(segs) == Token(segs[0].kw) + segs[0].val + r;
    if i == 0 {
      at := 0;
      assert (t + segs[0].val + r)[0..|t|] == t;
    } else {
      at := SegmentOccurs(segs[1..], i - 1);
      OccursShifted(Token(segs[0].kw) + segs[0].val, r, t, at);
      at := |Token(segs[0].kw) + segs[0].val| + at;
    }
  }

  lemma ValidIsASCII(name: string)
    requires MatchesAccountRe(name)
    ensures forall i | 0 <= i < |name| :: IsASCII(name[i])
  {
  }

  lemma ReservedIsLower(k: nat)
    requires k < |RESERVED|
    ensures forall j | 0 <= j < |RESERVED[k]| :: LowerByte(RESERVED[k][j]) == RESERVED[k][j]
  {
  }

  lemma ReservedIsAbsent(account: string, k: nat, at: nat)
    requires ValidAccountName(account) && k < |RESERVED|
    ensures !OccursAt(account, RESERVED[k], at)
  {
    var lower, t := ToLower(account), RESERVED[k];
    assert IndexOf(lower, t) < 0 by { assert !Contains(lower, RESERVED[k]); }
    ValidIsASCII(account);
    LowerASCII(account);
    ReservedIsLower(k);
    if OccursAt(account, t, at) {
      OccursChars(account, t, at);
      OccursFromChars(lower, t, at);
    }
  }

  lemma NotReserved(account: string, kw: string, at: nat)
    requires ValidAccountName(account) && OccursAt(account, Token(kw), at)
    ensures kw != "sid" && kw != "time" && kw != "mode"
  {
    ReservedIsAbsent(account, 0, at);
    ReservedIsAbsent(account, 1, at);
    ReservedIsAbsent(account, 2, at);
    assert Token("sid") == RESERVED[0] && Token("time") == RESERVED[1] && Token("mode") == RESERVED[2];
  }

  /** The segments inside a valid account name have keywords that are not reserved. */
  lemma InnerIsIgnored(account: string, a: string, segs: seq<Segment>)
    requires ValidAccountName(account) && account == a + Render(segs)
    ensures Ignored(segs)
  {
    forall i | 0 <= i < |segs| ensures segs[i].kw != "sid" && segs[i].kw != "time" && segs[i].kw != "mode" {
      var at := SegmentOccurs(segs, i);
      OccursShifted(a, Render(segs), Token(segs[i].kw), at);
      NotReserved(account, segs[i].kw, |a| + at);
    }
  }

  lemma PrefixIsValid(x: string, y: string)
    requires ValidAccountName(x + y) && x != ""
    ensures ValidAccountName(x)
  {
    assert MatchesAccountRe(x) by {
      forall i | 0 <= i < |x| ensures x[i] == (x + y)[i] {}
    }
    ValidIsASCII(x);
    ValidIsASCII(x + y);
    LowerASCII(x);
    LowerASCII(x + y);
    forall k | 0 <= k < |RESERVED| ensures !Contains(ToLower(x), RESERVED[k]) {
      if Contains(ToLower(x), RESERVED[k]) {
        var at := IndexOf(ToLower(x), RESERVED[k]);
        OccursChars(ToLower(x), RESERVED[k], at);
        OccursFromChars(ToLower(x + y), RESERVED[k], at);
      }
    }
  }

  /** The session is lost, and with some keywords the whole name. */
  function ReadCompleted(kw: string, account: string, sid: string, ttl: nat, raw: string): Result<Parsed> {
    if kw == "sid" then Err(InvalidSID)
    else if kw == "mode" || sid == "time" || sid == "mode" || (kw == "time" && sid in KEYWORDS) then
      Err(InvalidUsername)
    else if sid in KEYWORDS then Ok(Parsed(account, "", 0, false, Unset, raw))
    else Ok(Parsed(account, "", ttl, true, Unset, raw))
  }

  /** What pieces are read as, with the keyword that the suffix completed, if it did. */
  function ReadPieces(b: string, z: seq<Segment>, kw: Option<string>, sid: string, ttl: nat,
                      raw: string): Result<Parsed>
  {
    if !AllValued(z) then Err(InvalidUsername)
    else if kw.None? then Ok(Parsed(b, sid, ttl, true, Unset, raw))
    else ReadCompleted(kw.value, b, sid, ttl, raw)
  }

  /** What Parse makes of the name printed for an account: the account's own segments come first;
      a keyword at its very end takes part of the suffix. */
  function Reading(account: string, sid: string, ttl: nat, raw: string): Result<Parsed> {
    var (a, segs) := Split(account);
    var last := LastPiece(a, segs);
    var i := FirstToken(last + "_");
    var (b, z) := Pieces(a, segs, sid, ttl);
    if i >= 0 then TokenChars(last + "_", i); ReadPieces(b, z, Some(last[i + 1..]), sid, ttl, raw)
    else ReadPieces(b, z, None, sid, ttl, raw)
  }

  lemma AppendedDecodes(b: string, x: seq<Segment>, sid: string, ttl: nat, raw: string)
    requires Ignored(x) && ValidSID(sid) && ttl < INT64_LIMIT
    ensures DecodeSegments(b, x + StickySegments(sid, ttl), raw) == Ok(Parsed(b, sid, ttl, true, Unset, raw))
  {
    IgnoredLookup(x);
    StickyLookup(x, sid, ttl);
    AtoiDecimal(ttl);
  }

  lemma NotANumber(v: string)
    requires v != "" && v[0] != '-' && v[0] != '+' && !IsDigit(v[0])
    ensures Atoi(v).None?
  {
    assert v[0..1][0] == v[0];
    assert !HasPrefix(v, "-") && !HasPrefix(v, "+");
    assert !AllDigits(v);
  }

  lemma NotAMode(v: string)
    requires |v| >= 2 && (forall i | 0 <= i < |v| :: IsASCII(v[i]))
    requires (v[0] == 's' && v[1] == 'i') || v[0] == 't'
    ensures ModeOf(v).None?
  {
    LowerASCII(v);
    assert ToLower(v)[0] == LowerByte(v[0]) && ToLower(v)[1] == LowerByte(v[1]);
    assert "rotate"[0] == 'r' && "sticky"[0] == 's' && "sticky"[1] == 't';
  }

  /** Values that are neither a session id, nor a number, nor a mode. */
  lemma WordsAreNothing(v: string)
    requires |v| >= 3 && (forall i | 0 <= i < |v| :: IsASCII(v[i]))
    requires |v| == 3 || '_' in v
    requires (v[0] == 's' && v[1] == 'i') || v[0] == 't'
    ensures !ValidSID(v) && Atoi(v).None? && ModeOf(v).None?
  {
    NotANumber(v);
    NotAMode(v);
    if '_' in v { assert exists i :: 0 <= i < |v| && v[i] == '_'; }
  }

  lemma SwallowedLookup(x: seq<Segment>, g: Segment, h: Segment)
    requires Ignored(x)
    ensures var z := x + [g, h];
      && Lookup(z, "sid") == (if h.kw == "sid" then h.val else if g.kw == "sid" then g.val else "")
      && Lookup(z, "time") == (if h.kw == "time" then h.val else if g.kw == "time" then g.val else "")
      && Lookup(z, "mode") == (if h.kw == "mode" then h.val else if g.kw == "mode" then g.val else "")
  {
    IgnoredLookup(x);
    LookupTwo(x, g, h, "sid");
    LookupTwo(x, g, h, "time");
    LookupTwo(x, g, h, "mode");
  }

  /** What Parse reads, given the last values of the three fields. */
  lemma DecodeFields(b: string, z: seq<Segment>, raw: string, sid: string, time: string, mode: string)
    requires Lookup(z, "sid") == sid && Lookup(z, "time") == time && Lookup(z, "mode") == mode
    ensures sid != "" && !ValidSID(sid) ==> DecodeSegments(b, z, raw) == Err(InvalidSID)
    ensures sid == "" && ((time != "" && Atoi(time).None?) || (mode != "" && ModeOf(mode).None?)) ==>
      DecodeSegments(b, z, raw) == Err(InvalidUsername)
    ensures sid == "" && mode == "" && time == "" ==>
      DecodeSegments(b, z, raw) == Ok(Parsed(b, "", 0, false, Unset, raw))
    ensures sid == "" && mode == "" && time != "" && Atoi(time).Some? ==>
      DecodeSegments(b, z, raw) == Ok(Parsed(b, "", Atoi(time).value, true, Unset, raw))
  {
  }

  lemma KeywordDecodes(b: string, x: seq<Segment>, kw: string, sid: string, digits: string, raw: string)
    requires Ignored(x) && |sid| >= 4 && forall i | 0 <= i < |digits| :: IsDigit(digits[i])
    ensures DecodeSegments(b, x + [Segment(kw, "sid"), Segment(sid, "time_" + digits)], raw) ==
      if kw == "sid" then Err(InvalidSID)
      else if kw == "mode" || sid == "time" || sid == "mode" || kw == "time" then Err(InvalidUsername)
      else Ok(Parsed(b, "", 0, false, Unset, raw))
  {
    var g, h := Segment(kw, "sid"), Segment(sid, "time_" + digits);
    SwallowedLookup(x, g, h);
    WordsAreNothing(g.val);
    assert h.val[4] == '_';
    WordsAreNothing(h.val);
    var z := x + [g, h];
    DecodeFields(b, z, raw, Lookup(z, "sid"), Lookup(z, "time"), Lookup(z, "mode"));
  }

  lemma OtherDecodes(b: string, x: seq<Segment>, kw: string, sid: string, ttl: nat, raw: string)
    requires Ignored(x) && ValidSID(sid) && ttl < INT64_LIMIT
    ensures DecodeSegments(b, x + [Segment(kw, "sid_" + sid), Segment("time", Decimal(ttl))], raw) ==
      if kw == "sid" then Err(InvalidSID) else if kw == "mode" then Err(InvalidUsername)
      else Ok(Parsed(b, "", ttl, true, Unset, raw))
  {
    var g, h := Segment(kw, "sid_" + sid), Segment("time", Decimal(ttl));
    SwallowedLookup(x, g, h);
    assert g.val[3] == '_';
    WordsAreNothing(g.val);
    AtoiDecimal(ttl);
    var z := x + [g, h];
    DecodeFields(b, z, raw, Lookup(z, "sid"), Lookup(z, "time"), Lookup(z, "mode"));
  }

  lemma SwallowedDecodes(b: string, x: seq<Segment>, kw: string, sid: string, ttl: nat, raw: string)
    requires Ignored(x) && kw in KEYWORDS && ValidSID(sid) && ttl < INT64_LIMIT
    ensures DecodeSegments(b, x + Swallowed(kw, sid, Decimal(ttl)), raw) == ReadCompleted(kw, b, sid, ttl, raw)
  {
    if sid in KEYWORDS {
      KeywordDecodes(b, x, kw, sid, Decimal(ttl), raw);
    } else {
      OtherDecodes(b, x, kw, sid, ttl, raw);
    }
  }

  lemma PiecesShape(a: string, segs: seq<Segment>, sid: string, ttl: nat)
    ensures var (b, z) := Pieces(a, segs, sid, ttl); b <= a && z != []
  {
  }

  lemma NotAtStart(b: string, z: seq<Segment>)
    requires z != [] && (b + Render(z))[0] != '_'
    ensures b != ""
  {
    assert Render(z)[0] == '_';
    assert "" + Render(z) == Render(z);
  }

  lemma FrontIsValid(account: string, a: string, r: string, b: string, z: seq<Segment>, rest: string)
    requires ValidAccountName(account) && account == a + r && b <= a && z != [] && b + Render(z) == a + r + rest
    ensures b <= account && ValidAccountName(b)
  {
    assert (b + Render(z))[0] == account[0];
    NotAtStart(b, z);
    assert account == b + account[|b|..];
    PrefixIsValid(b, account[|b|..]);
  }

  /** The first piece of a printed name is a valid front part of the account. */
  lemma PiecesStart(account: string, sid: string, ttl: nat)
    requires ValidAccountName(account) && ValidSID(sid)
    ensures var b := Pieces(Split(account).0, Split(account).1, sid, ttl).0; b <= account && ValidAccountName(b)
  {
    var (a, segs) := Split(account);
    SplitIsCanonical(account);
    PiecesShape(a, segs, sid, ttl);
    PiecesFit(a, segs, sid, ttl);
    var (b, z) := Pieces(a, segs, sid, ttl);
    FrontIsValid(account, a, Render(segs), b, z, Suffix(sid, ttl));
  }

  lemma ShortenedDecodes(a: string, segs: seq<Segment>, front: string, kw: string, sid: string, ttl: nat, raw: string)
    requires Ignored(segs) && kw in KEYWORDS && ValidSID(sid) && ttl < INT64_LIMIT
    ensures var (b, z) := Shortened(a, segs, front, Swallowed(kw, sid, Decimal(ttl)));
      DecodeSegments(b, z, raw) == ReadCompleted(kw, b, sid, ttl, raw)
  {
    var y := Swallowed(kw, sid, Decimal(ttl));
    if segs == [] {
      assert [] + y == y;
      SwallowedDecodes(front, [], kw, sid, ttl, raw);
    } else {
      var n := |segs| - 1;
      var x := segs[..n] + [segs[n].(val := front)];
      assert segs[..n] + ([segs[n].(val := front)] + y) == x + y;
      SwallowedDecodes(a, x, kw, sid, ttl, raw);
    }
  }

  lemma PiecesDecode(account: string, sid: string, ttl: nat, raw: string)
    requires ValidAccountName(account) && ValidSID(sid) && ttl < INT64_LIMIT
    ensures var (a, segs) := Split(account);
      var (b, z) := Pieces(a, segs, sid, ttl);
      AllValued(z) ==> DecodeSegments(b, z, raw) == Reading(account, sid, ttl, raw)
  {
    var (a, segs) := Split(account);
    var last := LastPiece(a, segs);
    SplitIsCanonical(account);
    InnerIsIgnored(account, a, segs);
    if FirstToken(last + "_") < 0 {
      AppendedDecodes(a, segs, sid, ttl, raw);
    } else {
      LastHasNoToken(a, segs);
      var front, kw := CompletedToken(last);
      ShortenedDecodes(a, segs, front, kw, sid, ttl, raw);
    }
  }

  /** What Parse makes of every printed sticky name of a valid account: the round trip, another
      account, a lost session or an error, told apart by the account and the id alone. */
  lemma PrintedIsReadAs(account: string, sid: string, ttlMin: int, mode: Mode)
    requires ValidAccountName(account) && ValidSID(sid) && mode != Rotate && ttlMin < INT64_LIMIT
    ensures var raw := FormatUsername(account, sid, ttlMin, mode);
      Decode(raw) == Reading(account, sid, PrintedTTL(ttlMin), raw)
  {
    var ttl: nat := PrintedTTL(ttlMin);
    var raw := FormatUsername(account, sid, ttlMin, mode);
    assert raw == account + Suffix(sid, ttl);
    PrintedStands(account, sid, ttl);
    SplitPrinted(account, sid, ttl);
    PiecesStart(account, sid, ttl);
    PiecesDecode(account, sid, ttl, raw);
  }

  lemma PiecesShorter(account: string, sid: string, ttl: nat)
    requires !NoToken(account + "_")
    ensures Pieces(Split(account).0, Split(account).1, sid, ttl).0 != account
  {
    var (a, segs) := Split(account);
    SplitIsCanonical(account);
    if segs == [] {
      assert a == account by { assert Render([]) == "" && a + "" == a; }
    } else {
      RenderCons(segs[0], segs[1..]);
      assert segs == [segs[0]] + segs[1..];
      assert |Render(segs)| > 0;
    }
  }

  lemma ReadingShape(b: string, z: seq<Segment>, kw: Option<string>, sid: string, ttl: nat, raw: string)
    ensures var r := ReadPieces(b, z, kw, sid, ttl, raw);
      r.Ok? ==> (r.value.sid == sid || r.value.sid == "") && r.value.account == b
  {
  }

  lemma ReadingIs(account: string, sid: string, ttl: nat, raw: string)
    ensures var r := Reading(account, sid, ttl, raw);
      r.Ok? ==> (r.value.sid == sid || r.value.sid == "")
                && r.value.account == Pieces(Split(account).0, Split(account).1, sid, ttl).0
  {
    var (a, segs) := Split(account);
    var last := LastPiece(a, segs);
    var i := FirstToken(last + "_");
    var (b, z) := Pieces(a, segs, sid, ttl);
    if i >= 0 {
      TokenChars(last + "_", i);
      ReadingShape(b, z, Some(last[i + 1..]), sid, ttl, raw);
    } else {
      ReadingShape(b, z, None, sid, ttl, raw);
    }
  }

  /** A name that is misread as a name is read as a proper front part of the account, with the
      session it was printed for or none. */
  lemma MisreadIsShorter(account: string, sid: string, ttlMin: int, mode: Mode)
    requires ValidAccountName(account) && ValidSID(sid) && mode != Rotate && ttlMin < INT64_LIMIT
    requires !NoToken(account + "_")
    ensures var r := Decode(FormatUsername(account, sid, ttlMin, mode));
      r.Ok? ==> r.value.account < account && (r.value.sid == sid || r.value.sid == "")
  {
    var ttl := PrintedTTL(ttlMin);
    PrintedIsReadAs(account, sid, ttlMin, mode);
    ReadingIs(account, sid, ttl, FormatUsername(account, sid, ttlMin, mode));
    PiecesStart(account, sid, ttl);
    PiecesShorter(account, sid, ttl);
  }

  // ---------------------------------------------------------------- examples

  lemma FirstUnderscore(x: string, kw: string, front: string, k: string)
    requires '_' !in x && '_' !in kw && '_' !in k && x + "_" + kw == front + "_" + k
    ensures x == front && kw == k
  {
    var s := x + "_" + kw;
    assert s[|front|] == '_';
    assert |front| == |x|;
    assert s[..|x|] == x && s[..|front|] == front;
    assert s[|x| + 1..] == kw && s[|front| + 1..] == k;
  }

  lemma SwallowedValues(kw: string, sid: string, digits: string)
    requires digits != ""
    ensures AllValued(Swallowed(kw, sid, digits))
  {
  }

  /** An account that ends in a keyword after its only underscore. */
  lemma TrailingKeyword(x: string, kw: string, sid: string, ttl: nat, mode: Mode)
    requires '_' !in x && kw in KEYWORDS && ValidAccountName(x + "_" + kw) && ValidSID(sid)
    requires mode != Rotate && 0 < ttl < INT64_LIMIT
    ensures var raw := FormatUsername(x + "_" + kw, sid, ttl, mode);
      !NoToken(x + "_" + kw + "_") && Decode(raw) == ReadCompleted(kw, x, sid, ttl, raw)
  {
    var account := x + "_" + kw;
    KeywordsHold();
    OneInnerUnderscore(x, kw);
    assert Split(account) == (account, []);
    assert OccursAt(account + "_", Token(kw), |x|) by {
      assert (account + "_")[|x|..|x| + |kw| + 2] == Token(kw);
    }
    TokenFrom(account + "_", kw, |x|);
    LastHasNoToken(account, []);
    var front, k := CompletedToken(account);
    assert front[..] == x by { FirstUnderscore(x, kw, front, k); }
    SwallowedValues(kw, sid, Decimal(ttl));
    PrintedIsReadAs(account, sid, ttl, mode);
  }

  lemma NumberIsNoKeyword()
    ensures "1234" !in KEYWORDS
  {
    forall k | 0 <= k < |KEYWORDS| ensures KEYWORDS[k] != "1234" {
      assert !IsDigit(KEYWORDS[k][0]);
    }
  }

  /** Names too short or of the wrong shape to hold a reserved substring. */
  lemma ShortIsValid(x: string, y: string)
    requires (x == "a" && y in ["sid", "time", "mode", "st"]) || (x == "a_st" && y == "b")
    ensures ValidAccountName(x + "_" + y)
  {
    var name := x + "_" + y;
    ValidIsASCII(name);
    LowerASCII(name);
    forall k | 0 <= k < |RESERVED| ensures !Contains(ToLower(name), RESERVED[k]) {
      var lower, t := ToLower(name), RESERVED[k];
      assert t[0] == '_' && t[|t| - 1] == '_' && |t| >= 5;
      if Contains(lower, t) {
        OccursChars(lower, t, IndexOf(lower, t));
      }
    }
  }

  /** So validation does not imply the condition of the round trip. In `a_sid` the underscore of
      the suffix completes a token, and the name is rejected; so it is for `a_mode`, while `a_st`
      and `a_time` are read as the account `a` without a session. */
  lemma ValidationIsNotEnough(kw: string, name: string)
    requires kw in ["sid", "time", "mode", "st"] && name == "a_" + kw
    ensures ValidAccountName(name) && !NoToken(name + "_")
    ensures var raw := FormatUsername(name, "1234", 10, Sticky);
      Decode(raw) == if kw == "sid" then Err(InvalidSID) else if kw == "mode" then Err(InvalidUsername)
                     else Ok(Parsed("a", "", 10, true, Unset, raw))
  {
    assert kw in KEYWORDS by {
      assert KEYWORDS[0] == "sid" && KEYWORDS[1] == "time" && KEYWORDS[2] == "mode" && KEYWORDS[4] == "st";
    }
    ShortIsValid("a", kw);
    assert "a" + "_" + kw == name;
    NumberIsNoKeyword();
    TrailingKeyword("a", kw, "1234", 10, Sticky);
  }

  /** `a_st_b` holds a keyword that is not reserved, and its sessions are those of the account `a`. */
  lemma UnreservedKeyword()
    ensures ValidAccountName("a_st_b") && !NoToken("a_st_b" + "_")
    ensures var raw := FormatUsername("a_st_b", "1234", 10, Sticky);
      Decode(raw).Ok? && Decode(raw).value.account == "a" && Decode(raw).value.sid == "1234"
  {
    assert KEYWORDS[4] == "st";
    OccursFromChars("a_st_b" + "_", Token(KEYWORDS[4]), 1);
    assert TokenAt("a_st_b" + "_", 1);
    ShortIsValid("a_st", "b");
    assert "a_st" + "_" + "b" == "a_st_b";
    PrefixIsValid("a", "_st_b");
    assert "a" + "_st_b" == "a_st_b";
    NoUnderscoreNoToken("a");
    assert "a" + Token("st") + "b" == "a_st_b";
    ForeignSegmentChangesAccount("a", "st", "b", "1234", 10, Sticky);
  }
}
