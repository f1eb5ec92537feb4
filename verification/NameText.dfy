/**
 What the parts of a user name mean, said about its text. Credential.dfy states the protocol by
 functions that the parser computes; here what they decide is stated on characters, positions
 and numbers instead: which value of a keyword counts, which texts are lifetimes and modes, and
 which names are valid.
 */
module NameText {
  import opened Text
  import opened Credential
  import opened Misread

  // ---------------------------------------------------------------- account names

  /** The lower-case word w stands at position i, in any ASCII letter case. */
  predicate SpelledAt(s: string, w: string, i: int) {
    && 0 <= i && i + |w| <= |s|
    && forall j | 0 <= j < |w| :: s[i + j] == w[j] || ('A' <= s[i + j] <= 'Z' && s[i + j] as int + 32 == w[j] as int)
  }

  lemma LowerIs(c: char, w: char)
    requires w == '_' || 'a' <= w <= 'z'
    ensures LowerByte(c) == w <==> c == w || ('A' <= c <= 'Z' && c as int + 32 == w as int)
  {
  }

  lemma OccursLower(s: string, w: string, i: int)
    requires IsLowerWord(w) && forall k | 0 <= k < |s| :: IsASCII(s[k])
    ensures OccursAt(ToLower(s), w, i) <==> SpelledAt(s, w, i)
  {
    LowerASCII(s);
    if 0 <= i && i + |w| <= |s| {
      forall j | 0 <= j < |w|
        ensures ToLower(s)[i + j] == w[j]
                <==> s[i + j] == w[j] || ('A' <= s[i + j] <= 'Z' && s[i + j] as int + 32 == w[j] as int)
      {
        LowerIs(s[i + j], w[j]);
      }
      if OccursAt(ToLower(s), w, i) {
        OccursChars(ToLower(s), w, i);
      } else if SpelledAt(s, w, i) {
        OccursFromChars(ToLower(s), w, i);
      }
    }
  }

  ghost predicate Holds(s: string, w: string) { exists i :: SpelledAt(s, w, i) }

  lemma ContainsSpelled(s: string, w: string)
    requires IsLowerWord(w) && forall k | 0 <= k < |s| :: IsASCII(s[k])
    ensures Contains(ToLower(s), w) <==> Holds(s, w)
  {
    var lower := ToLower(s);
    if Contains(lower, w) { OccursLower(s, w, IndexOf(lower, w)); }
    if i :| SpelledAt(s, w, i) { OccursLower(s, w, i); }
  }

  predicate NoneIn(lower: string, words: seq<string>) {
    forall k | 0 <= k < |words| :: !Contains(lower, words[k])
  }

  ghost predicate NoneHeld(name: string, words: seq<string>) {
    forall k | 0 <= k < |words| :: !Holds(name, words[k])
  }

  lemma NoneHeldIff(name: string, words: seq<string>)
    requires forall k | 0 <= k < |name| :: IsASCII(name[k])
    requires forall k | 0 <= k < |words| :: IsLowerWord(words[k])
    ensures NoneIn(ToLower(name), words) <==> NoneHeld(name, words)
  {
    forall k | 0 <= k < |words| ensures Contains(ToLower(name), words[k]) <==> Holds(name, words[k]) {
      ContainsSpelled(name, words[k]);
    }
  }

  lemma FourWords(name: string, a: string, b: string, c: string, d: string)
    ensures NoneHeld(name, [a, b, c, d]) <==> !Holds(name, a) && !Holds(name, b) && !Holds(name, c) && !Holds(name, d)
  {
    var words := [a, b, c, d];
    assert words[0] == a && words[1] == b && words[2] == c && words[3] == d;
  }

  lemma ReservedIsLowerCase()
    ensures forall k | 0 <= k < |RESERVED| :: IsLowerWord(RESERVED[k])
  {
  }

  lemma ReservedHeld(name: string)
    requires forall k | 0 <= k < |name| :: IsASCII(name[k])
    ensures NoneIn(ToLower(name), RESERVED) <==>
      !Holds(name, "_sid_") && !Holds(name, "_time_") && !Holds(name, "_mode_") && !Holds(name, "_zone_")
  {
    ReservedIsLowerCase();
    NoneHeldIff(name, RESERVED);
    FourWords(name, "_sid_", "_time_", "_mode_", "_zone_");
  }

  /** A valid account name starts with a letter or digit, consists of letters, digits, dots,
      underscores and hyphens, and holds none of four keywords in any letter case. */
  lemma ValidNameIff(name: string)
    ensures ValidAccountName(name) <==>
      && name != "" && IsAlnum(name[0])
      && (forall i | 0 <= i < |name| :: IsAlnum(name[i]) || name[i] in ['.', '_', '-'])
      && !Holds(name, "_sid_") && !Holds(name, "_time_") && !Holds(name, "_mode_") && !Holds(name, "_zone_")
  {
    if MatchesAccountRe(name) { ReservedHeld(name); }
  }

  // ---------------------------------------------------------------- the fields of a name

  predicate Absent(segs: seq<Segment>, kw: string) {
    forall i | 0 <= i < |segs| :: segs[i].kw != kw
  }

  predicate IsLast(segs: seq<Segment>, kw: string, i: int) {
    0 <= i < |segs| && segs[i].kw == kw && forall j | i < j < |segs| :: segs[j].kw != kw
  }

  lemma {:induction false} LastValue(segs: seq<Segment>, kw: string)
    ensures Absent(segs, kw) ==> Lookup(segs, kw) == ""
    ensures !Absent(segs, kw) ==> exists i :: IsLast(segs, kw, i)
    ensures forall i | IsLast(segs, kw, i) :: Lookup(segs, kw) == segs[i].val
  {
    if segs != [] {
      var n := |segs| - 1;
      if segs[n].kw == kw {
        assert IsLast(segs, kw, n);
      } else {
        var front := segs[..n];
        LastValue(front, kw);
        if !Absent(segs, kw) {
          assert !Absent(front, kw) by {
            var k :| 0 <= k < |segs| && segs[k].kw == kw;
            assert front[k].kw == kw;
          }
          var i :| IsLast(front, kw, i);
          assert IsLast(segs, kw, i);
        }
        forall i | IsLast(segs, kw, i) ensures Lookup(segs, kw) == segs[i].val {
          assert IsLast(front, kw, i);
        }
      }
    }
  }

  predicate GoodSid(v: string) { 4 <= |v| <= 64 && forall i | 0 <= i < |v| :: IsAlnum(v[i]) }

  ghost predicate GoodTime(v: string) { exists n :: Writes(v, n) && -INT64_LIMIT <= n < INT64_LIMIT }

  predicate GoodMode(v: string) { Spells(v, "rotate") || Spells(v, "sticky") }

  /** What a parsed name says about session, lifetime and mode: the last value of each keyword,
      and nothing where there is none. */
  ghost predicate SaysFields(segs: seq<Segment>, p: Parsed) {
    && (Absent(segs, "sid") ==> p.sid == "")
    && (Absent(segs, "time") ==> !p.ttlSet && p.ttlMinutes == 0)
    && (Absent(segs, "mode") ==> p.mode == Unset)
    && (forall i | IsLast(segs, "sid", i) :: p.sid == segs[i].val)
    && (forall i | IsLast(segs, "time", i) :: p.ttlSet && Writes(segs[i].val, p.ttlMinutes))
    && forall i | IsLast(segs, "mode", i) ::
         if Spells(segs[i].val, "rotate") then p.mode == Rotate else p.mode == Sticky
  }

  lemma ModeIs(v: string)
    ensures ModeOf(v) ==
      if Spells(v, "rotate") then Some(Rotate) else if Spells(v, "sticky") then Some(Sticky) else None
  {
    LowerSpells(v, "rotate");
    LowerSpells(v, "sticky");
  }

  lemma TimeIs(v: string)
    ensures Atoi(v).Some? <==> GoodTime(v)
    ensures Atoi(v).Some? ==> Writes(v, Atoi(v).value)
  {
    if Atoi(v).Some? { AtoiIff(v, Atoi(v).value); }
    if n :| Writes(v, n) && -INT64_LIMIT <= n < INT64_LIMIT { AtoiIff(v, n); }
  }

  lemma LastCase(segs: seq<Segment>, kw: string)
    requires AllValued(segs)
    ensures Lookup(segs, kw) == "" <==> Absent(segs, kw)
    ensures Lookup(segs, kw) != "" ==> exists i :: IsLast(segs, kw, i)
    ensures forall i | IsLast(segs, kw, i) :: segs[i].val == Lookup(segs, kw) != ""
  {
    LastValue(segs, kw);
  }

  lemma ValuesMean(account: string, segs: seq<Segment>, raw: string, sid: string, time: string, mode: string)
    requires sid == Lookup(segs, "sid") && time == Lookup(segs, "time") && mode == Lookup(segs, "mode")
    ensures var r := DecodeSegments(account, segs, raw);
      && (r == Err(InvalidSID) <==> sid != "" && !GoodSid(sid))
      && (r.Ok? <==> (sid == "" || GoodSid(sid)) && (time == "" || GoodTime(time)) && (mode == "" || GoodMode(mode)))
      && (r.Err? ==> r.error != InvalidAccount)
      && (r.Ok? ==> var p := r.value;
            && p.account == account && p.raw == raw && p.sid == sid && p.ttlSet == (time != "")
            && (if time == "" then p.ttlMinutes == 0 else Writes(time, p.ttlMinutes))
            && p.mode == if mode == "" then Unset else if Spells(mode, "rotate") then Rotate else Sticky)
  {
    assert sid != "" ==> (ValidSID(sid) <==> GoodSid(sid));
    TimeIs(time);
    ModeIs(mode);
  }

  /** Of every keyword the last value counts. A name is refused when its session id is none, and
      otherwise when its lifetime is not a number or its mode is not one of the two. */
  lemma FieldsMean(account: string, segs: seq<Segment>, raw: string)
    requires AllValued(segs)
    ensures var r := DecodeSegments(account, segs, raw);
      && (r == Err(InvalidSID) <==> exists i :: IsLast(segs, "sid", i) && !GoodSid(segs[i].val))
      && (r.Ok? <==> && (forall i | IsLast(segs, "sid", i) :: GoodSid(segs[i].val))
                     && (forall i | IsLast(segs, "time", i) :: GoodTime(segs[i].val))
                     && (forall i | IsLast(segs, "mode", i) :: GoodMode(segs[i].val)))
      && (r.Ok? ==> r.value.account == account && r.value.raw == raw && SaysFields(segs, r.value))
      && (r.Err? ==> r.error != InvalidAccount)
  {
    var sid, time, mode := Lookup(segs, "sid"), Lookup(segs, "time"), Lookup(segs, "mode");
    LastCase(segs, "sid");
    LastCase(segs, "time");
    LastCase(segs, "mode");
    ValuesMean(account, segs, raw, sid, time, mode);
  }

  /** The meaning of a name whose pieces are an account and segments; by SplitIsCanonical every
      name has such pieces. */
  lemma NameMeans(account: string, segs: seq<Segment>)
    requires Canonical(account, segs)
    requires var raw := account + Render(segs); raw != "" && TrimSpace(raw) == raw && !MidForm(raw)
    ensures var raw := account + Render(segs);
      var r := Decode(raw);
      && (r == Err(InvalidAccount) <==> !ValidAccountName(account))
      && (r == Err(InvalidSID) <==>
            && ValidAccountName(account) && AllValued(segs)
            && exists i :: IsLast(segs, "sid", i) && !GoodSid(segs[i].val))
      && (r.Ok? <==> && ValidAccountName(account) && AllValued(segs)
                     && (forall i | IsLast(segs, "sid", i) :: GoodSid(segs[i].val))
                     && (forall i | IsLast(segs, "time", i) :: GoodTime(segs[i].val))
                     && (forall i | IsLast(segs, "mode", i) :: GoodMode(segs[i].val)))
      && (r.Ok? ==> r.value.account == account && r.value.raw == raw && SaysFields(segs, r.value))
  {
    SplitInvertsRender(account, segs);
    if AllValued(segs) { FieldsMean(account, segs, account + Render(segs)); }
  }

  // ---------------------------------------------------------------- the last part of a name

  lemma TextStands(front: string, v: string)
    requires |front| >= 2 && IsAlnum(front[0]) && front[|front| - 1] == '_' && IsASCII(front[|front| - 2])
    requires v != "" && TrailingSpace(v) == 0
    ensures TrimSpace(front + v) == front + v != ""
  {
    var raw := front + v;
    var n := |raw|;
    assert raw[n - 1] == v[|v| - 1];
    assert |v| >= 2 ==> raw[n - 2] == v[|v| - 2];
    assert |v| >= 3 ==> raw[n - 3] == v[|v| - 3];
    assert LeadingSpace(raw) == 0 && TrailingSpace(raw) == 0;
  }

  /** What of a string can be the older mid form lies behind a front part that ends in an
      underscore, but not in that of the form. */
  lemma MidBehind(t: string, v: string)
    requires |t| >= 4 && t[|t| - 1] == '_' && (t[|t| - 2] != 'd' || t[|t| - 4] != 'm') && MidForm(t + v)
    ensures |v| >= MID_LEN + 5 && '_' in v
  {
    var raw := t + v;
    var p := |raw| - MID_LEN - 5;
    OccursChars(raw, "-mid_", p);
    assert raw[p + 0] == '-' && raw[p + 1] == 'm' && raw[p + 2] == 'i' && raw[p + 3] == 'd' && raw[p + 4] == '_';
    assert raw[|t| - 1] == '_' && raw[|t| - 2] == t[|t| - 2] && raw[|t| - 4] == t[|t| - 4];
    assert |t| - 1 < p;
    assert raw[p + 4] == v[p + 4 - |t|];
  }

  lemma MidInValue(front: string, kw: string, v: string)
    requires kw in ["sid", "time", "mode"] && MidForm(front + Token(kw) + v)
    ensures |v| >= MID_LEN + 5 && '_' in v
  {
    var t := front + Token(kw);
    var n := |kw|;
    assert t[|t| - 1] == '_' && t[|t| - 2] == kw[n - 1] && t[|t| - 4] == kw[n - 3];
    MidBehind(t, v);
  }

  lemma TokenIsReserved(name: string, kw: string, i: int)
    requires kw in ["sid", "time", "mode"] && OccursAt(name, Token(kw), i)
    ensures !ValidAccountName(name)
  {
    OccursChars(name, Token(kw), i);
    assert SpelledAt(name, Token(kw), i) && Holds(name, Token(kw));
    assert Token("sid") == "_sid_" && Token("time") == "_time_" && Token("mode") == "_mode_";
    ValidNameIff(name);
  }

  lemma StillOccurs(x: string, t: string, v: string, n: nat)
    requires |x| + |t| <= n <= |x + t + v|
    ensures OccursAt((x + t + v)[..n], t, |x|)
  {
    assert (x + t + v)[..n][|x|..|x| + |t|] == t;
  }

  lemma InvalidMid(raw: string)
    requires raw != "" && TrimSpace(raw) == raw && MidForm(raw) && !ValidAccountName(raw[..|raw| - MID_LEN - 5])
    ensures Decode(raw) == Err(InvalidAccount)
  {
  }

  lemma MidIsInvalid(front: string, kw: string, v: string)
    requires kw in ["sid", "time", "mode"] && |v| >= MID_LEN + 5
    requires var raw := front + Token(kw) + v; TrimSpace(raw) == raw != "" && MidForm(raw)
    ensures Decode(front + Token(kw) + v) == Err(InvalidAccount)
  {
    var raw := front + Token(kw) + v;
    StillOccurs(front, Token(kw), v, |raw| - MID_LEN - 5);
    TokenIsReserved(raw[..|raw| - MID_LEN - 5], kw, |front|);
    InvalidMid(raw);
  }

  lemma LookupAppend(front: seq<Segment>, g: Segment, kw: string)
    ensures Lookup(front + [g], kw) == if g.kw == kw then g.val else Lookup(front, kw)
  {
    assert (front + [g])[..|front|] == front;
  }

  lemma AppendRenders(front: seq<Segment>, g: Segment)
    ensures Render(front + [g]) == Render(front) + (Token(g.kw) + g.val)
  {
    RenderConcat(front, [g]);
    assert Render([g]) == RenderSegment(g) + Render([]);
  }

  lemma LastIsCanonical(account: string, front: seq<Segment>, g: Segment)
    requires NoToken(account + "_") && Followed(front) && g.kw in KEYWORDS && NoToken(g.val)
    ensures Canonical(account, front + [g])
  {
    assert CanonicalSegments([g]);
    CanonicalConcat(front, [g]);
  }

  lemma Regroup(a: string, b: string, c: string, d: string)
    ensures a + (b + (c + d)) == a + b + c + d
  {
  }

  lemma LastRenders(account: string, front: seq<Segment>, kw: string, v: string)
    ensures account + Render(front + [Segment(kw, v)]) == account + Render(front) + Token(kw) + v
  {
    AppendRenders(front, Segment(kw, v));
    Regroup(account, Render(front), Token(kw), v);
  }

  lemma LastDecodes(account: string, front: seq<Segment>, kw: string, v: string, raw: string)
    requires ValidAccountName(account) && NoToken(account + "_") && Followed(front) && AllValued(front)
    requires kw in KEYWORDS && v != "" && NoToken(v)
    requires raw == account + Render(front + [Segment(kw, v)]) && TrimSpace(raw) == raw && !MidForm(raw)
    ensures Decode(raw) == DecodeSegments(account, front + [Segment(kw, v)], raw)
  {
    LastIsCanonical(account, front, Segment(kw, v));
    DecodeRendered(account, front + [Segment(kw, v)]);
  }

  lemma LastStands(account: string, x: string, kw: string, v: string)
    requires ValidAccountName(account) && kw in ["sid", "time", "mode"] && v != "" && TrailingSpace(v) == 0
    ensures var raw := account + x + Token(kw) + v; TrimSpace(raw) == raw != ""
  {
    var t := account + x + Token(kw);
    assert t[0] == account[0] && t[|t| - 1] == '_' && t[|t| - 2] == kw[|kw| - 1];
    TextStands(t, v);
  }

  /** A name that ends in one of the three keywords the program reads. */
  lemma LastSegment(account: string, front: seq<Segment>, kw: string, v: string)
    requires ValidAccountName(account) && NoToken(account + "_") && Followed(front) && AllValued(front)
    requires kw in ["sid", "time", "mode"] && v != "" && NoToken(v) && TrailingSpace(v) == 0
    ensures var raw := account + Render(front) + Token(kw) + v;
      && (MidForm(raw) ==> '_' in v)
      && Decode(raw) ==
           if MidForm(raw) then Err(InvalidAccount) else DecodeSegments(account, front + [Segment(kw, v)], raw)
  {
    var x := account + Render(front);
    LastStands(account, Render(front), kw, v);
    if MidForm(x + Token(kw) + v) {
      MidInValue(x, kw, v);
      MidIsInvalid(x, kw, v);
    } else {
      LastRenders(account, front, kw, v);
      assert kw in KEYWORDS by { assert KEYWORDS[0] == "sid" && KEYWORDS[1] == "time" && KEYWORDS[2] == "mode"; }
      LastDecodes(account, front, kw, v, x + Token(kw) + v);
    }
  }

  /** A word in letters has no underscore, and ends in a letter when that is neither i nor k. */
  lemma {:induction false} SpelledIsPlain(v: string, w: string)
    requires Spells(v, w) && IsLowerWord(w) && '_' !in w && w != "" && w[|w| - 1] !in ['i', 'k']
    ensures v != "" && '_' !in v && IsAlnum(v[|v| - 1])
  {
    if |w| > 1 {
      var n := if HasPrefix(v, Utf8(0x130)) then 2 else if HasPrefix(v, Utf8(0x212A)) then 3 else 1;
      assert '_' !in v[..n];
      SpelledIsPlain(v[n..], w[1..]);
      assert v == v[..n] + v[n..];
    }
  }

  lemma ModeIsPlain(v: string)
    requires GoodMode(v)
    ensures v != "" && '_' !in v && NoToken(v) && TrailingSpace(v) == 0
  {
    SpelledIsPlain(v, if Spells(v, "rotate") then "rotate" else "sticky");
    NoUnderscoreNoToken(v);
  }

  lemma StickyIsFollowed(account: string, sid: string, n: nat)
    requires GoodSid(sid)
    ensures Followed(StickySegments(sid, n)) && AllValued(StickySegments(sid, n))
    ensures account + Render(StickySegments(sid, n)) == account + "_sid_" + sid + "_time_" + Decimal(n)
  {
    StickySegmentsFacts(account, sid, n);
    NoUnderscoreNoToken(sid);
    NoUnderscoreNoToken(Decimal(n));
  }

  lemma NotBothModes(v: string)
    ensures !(Spells(v, "rotate") && Spells(v, "sticky"))
  {
    LowerSpells(v, "rotate");
    LowerSpells(v, "sticky");
    assert "rotate"[0] != "sticky"[0];
  }

  lemma StickyMode(account: string, sid: string, n: nat, v: string, raw: string)
    requires GoodSid(sid) && n < INT64_LIMIT && v != ""
    ensures var r := DecodeSegments(account, StickySegments(sid, n) + [Segment("mode", v)], raw);
      && (Spells(v, "rotate") ==> r == Ok(Parsed(account, sid, n, true, Rotate, raw)))
      && (Spells(v, "sticky") && !Spells(v, "rotate") ==> r == Ok(Parsed(account, sid, n, true, Sticky, raw)))
      && (!Spells(v, "rotate") && !Spells(v, "sticky") ==> r == Err(InvalidUsername))
  {
    var front, g := StickySegments(sid, n), Segment("mode", v);
    StickyLookup([], sid, n);
    assert [] + front == front;
    assert "sid"[0] != "mode"[0] && "time"[0] != "mode"[0];
    LookupAppend(front, g, "sid");
    LookupAppend(front, g, "time");
    LookupAppend(front, g, "mode");
    AtoiDecimal(n);
    ModeIs(v);
  }

  /** The value decides between the three outcomes. */
  ghost predicate ModeDecides(r: Result<Parsed>, v: string, rotate: Parsed, sticky: Parsed, other: ParseError) {
    && (Spells(v, "rotate") ==> r == Ok(rotate))
    && (Spells(v, "sticky") ==> r == Ok(sticky))
    && (!Spells(v, "rotate") && !Spells(v, "sticky") ==> r == Err(other))
  }

  /** What a mode at the end of a name says: rotate or sticky, in any letter case. Any other value
      makes the name invalid; one that holds the older form counts as part of the account. */
  lemma ModeText(account: string, sid: string, n: nat, v: string)
    requires ValidAccountName(account) && NoToken(account + "_") && GoodSid(sid) && n < INT64_LIMIT
    requires GoodMode(v) || (v != "" && NoToken(v) && TrailingSpace(v) == 0)
    ensures var raw := account + "_sid_" + sid + "_time_" + Decimal(n) + "_mode_" + v;
      ModeDecides(Decode(raw), v,
                  Parsed(account, sid, n, true, Rotate, raw), Parsed(account, sid, n, true, Sticky, raw),
                  if MidForm(raw) then InvalidAccount else InvalidUsername)
  {
    if GoodMode(v) { ModeIsPlain(v); }
    StickyIsFollowed(account, sid, n);
    assert Token("mode") == "_mode_";
    LastSegment(account, StickySegments(sid, n), "mode", v);
    StickyMode(account, sid, n, v, account + "_sid_" + sid + "_time_" + Decimal(n) + "_mode_" + v);
    NotBothModes(v);
  }

  lemma OneSegment(account: string, kw: string, v: string)
    requires ValidAccountName(account) && NoToken(account + "_")
    requires kw in ["sid", "time", "mode"] && v != "" && NoToken(v) && TrailingSpace(v) == 0
    ensures var raw := account + Token(kw) + v;
      && (MidForm(raw) ==> '_' in v)
      && Decode(raw) == if MidForm(raw) then Err(InvalidAccount) else DecodeSegments(account, [Segment(kw, v)], raw)
  {
    assert account + Render([]) == account && [] + [Segment(kw, v)] == [Segment(kw, v)];
    LastSegment(account, [], kw, v);
  }

  lemma LookupOne(g: Segment, kw: string)
    ensures Lookup([g], kw) == if g.kw == kw then g.val else ""
  {
    assert [] + [g] == [g];
    LookupAppend([], g, kw);
  }

  lemma OneMode(account: string, v: string, raw: string)
    requires v != ""
    ensures DecodeSegments(account, [Segment("mode", v)], raw) ==
      if Spells(v, "rotate") then Ok(Parsed(account, "", 0, false, Rotate, raw))
      else if Spells(v, "sticky") then Ok(Parsed(account, "", 0, false, Sticky, raw))
      else Err(InvalidUsername)
  {
    assert "mode"[0] != "sid"[0] && "mode"[0] != "time"[0];
    LookupOne(Segment("mode", v), "sid");
    LookupOne(Segment("mode", v), "time");
    LookupOne(Segment("mode", v), "mode");
    ModeIs(v);
  }

  lemma ModeResult(account: string, v: string, raw: string, r: Result<Parsed>, mid: bool)
    requires v != "" && (mid ==> !GoodMode(v))
    requires r == if mid then Err(InvalidAccount) else DecodeSegments(account, [Segment("mode", v)], raw)
    ensures ModeDecides(r, v, Parsed(account, "", 0, false, Rotate, raw), Parsed(account, "", 0, false, Sticky, raw),
                        if mid then InvalidAccount else InvalidUsername)
  {
    OneMode(account, v, raw);
    NotBothModes(v);
  }

  /** The same for a mode directly after the account. */
  lemma ModeAlone(account: string, v: string)
    requires ValidAccountName(account) && NoToken(account + "_")
    requires GoodMode(v) || (v != "" && NoToken(v) && TrailingSpace(v) == 0)
    ensures var raw := account + "_mode_" + v;
      ModeDecides(Decode(raw), v,
                  Parsed(account, "", 0, false, Rotate, raw), Parsed(account, "", 0, false, Sticky, raw),
                  if MidForm(raw) then InvalidAccount else InvalidUsername)
  {
    if GoodMode(v) { ModeIsPlain(v); }
    assert Token("mode") == "_mode_";
    OneSegment(account, "mode", v);
    var raw := account + "_mode_" + v;
    ModeResult(account, v, raw, Decode(raw), MidForm(raw));
  }

  /** A session id alone: it has 4 to 64 letters and digits, and no lifetime goes with it. */
  lemma SidAlone(account: string, v: string)
    requires ValidAccountName(account) && NoToken(account + "_")
    requires v != "" && NoToken(v) && TrailingSpace(v) == 0
    ensures var raw := account + "_sid_" + v;
      Decode(raw) ==
        if 4 <= |v| <= 64 && (forall i | 0 <= i < |v| :: IsAlnum(v[i]))
        then Ok(Parsed(account, v, 0, false, Unset, raw))
        else Err(if MidForm(raw) then InvalidAccount else InvalidSID)
  {
    assert Token("sid") == "_sid_" && "sid"[0] != "mode"[0] && "sid"[0] != "time"[0];
    OneSegment(account, "sid", v);
    LookupOne(Segment("sid", v), "sid");
    LookupOne(Segment("sid", v), "time");
    LookupOne(Segment("sid", v), "mode");
  }

  /** A lifetime alone: any number of 64 bits, with or without a sign. */
  lemma TimeAlone(account: string, v: string, n: int)
    requires ValidAccountName(account) && NoToken(account + "_")
    requires v != "" && NoToken(v) && TrailingSpace(v) == 0
    ensures var raw := account + "_time_" + v;
      Decode(raw) == Ok(Parsed(account, "", n, true, Unset, raw))
      <==> !MidForm(raw) && Writes(v, n) && -INT64_LIMIT <= n < INT64_LIMIT
  {
    assert Token("time") == "_time_" && "time"[0] != "mode"[0] && "time"[0] != "sid"[0];
    OneSegment(account, "time", v);
    LookupOne(Segment("time", v), "sid");
    LookupOne(Segment("time", v), "time");
    LookupOne(Segment("time", v), "mode");
    AtoiIff(v, n);
  }

  lemma ForeignStands(account: string, kw: string, v: string)
    requires ValidAccountName(account) && kw in ["zone", "st", "city"] && v != "" && '_' !in v && TrailingSpace(v) == 0
    ensures var raw := account + Token(kw) + v; TrimSpace(raw) == raw != "" && !MidForm(raw)
  {
    var t := account + Token(kw);
    assert t[0] == account[0] && t[|t| - 1] == '_' && t[|t| - 2] == kw[|kw| - 1] != 'd';
    TextStands(t, v);
    if MidForm(t + v) { MidBehind(t, v); }
  }

  lemma ForeignSaysNothing(account: string, g: Segment, raw: string)
    requires g.kw in ["zone", "st", "city"]
    ensures DecodeSegments(account, [g], raw) == Ok(Parsed(account, "", 0, false, Unset, raw))
  {
    assert "sid"[0] == 's' && "sid"[1] == 'i' && "time"[0] == 't' && "mode"[0] == 'm';
    assert g.kw[0] in ['z', 's', 'c'] && (g.kw[0] == 's' ==> g.kw[1] == 't');
    LookupOne(g, "sid");
    LookupOne(g, "time");
    LookupOne(g, "mode");
  }

  /** The other keywords are known and say nothing. */
  lemma ForeignText(account: string, kw: string, v: string)
    requires ValidAccountName(account) && NoToken(account + "_")
    requires kw in ["zone", "st", "city"] && v != "" && '_' !in v && TrailingSpace(v) == 0
    ensures var raw := account + Token(kw) + v; Decode(raw) == Ok(Parsed(account, "", 0, false, Unset, raw))
  {
    var raw := account + Token(kw) + v;
    ForeignStands(account, kw, v);
    NoUnderscoreNoToken(v);
    assert kw in KEYWORDS by { assert KEYWORDS[3] == "zone" && KEYWORDS[4] == "st" && KEYWORDS[5] == "city"; }
    assert account + Render([]) == account && [] + [Segment(kw, v)] == [Segment(kw, v)];
    LastRenders(account, [], kw, v);
    LastDecodes(account, [], kw, v, raw);
    ForeignSaysNothing(account, Segment(kw, v), raw);
  }

  // ---------------------------------------------------------------- the older form

  predicate IsLowered(lower: string, s: string) {
    && |lower| == |s|
    && forall i | 0 <= i < |s| :: lower[i] == if 'A' <= s[i] <= 'Z' then (s[i] as int + 32) as char else s[i]
  }

  lemma MidStands(account: string, digits: string)
    requires account != "" && IsASCII(account[0]) && !IsASCIISpace(account[0]) && '\n' !in account
    requires |digits| == 64 && forall i | 0 <= i < |digits| :: IsHex(digits[i])
    ensures var raw := account + "-mid_" + digits;
      && TrimSpace(raw) == raw != "" && MidForm(raw)
      && raw[..|raw| - MID_LEN - 5] == account && raw[|raw| - MID_LEN..] == digits
  {
    var raw := account + "-mid_" + digits;
    assert raw[|raw| - 1] == digits[63];
    TrimKeeps(raw);
  }

  lemma MidDecodes(raw: string, account: string, digits: string)
    requires TrimSpace(raw) == raw != "" && MidForm(raw) && ValidAccountName(account)
    requires raw[..|raw| - MID_LEN - 5] == account && raw[|raw| - MID_LEN..] == digits
    ensures Decode(raw) == Ok(Parsed(account, ToLower(digits), 0, false, Sticky, raw))
  {
  }

  lemma HexLowered(digits: string)
    requires forall i | 0 <= i < |digits| :: IsHex(digits[i])
    ensures IsLowered(ToLower(digits), digits)
  {
    LowerASCII(digits);
  }

  /** The older form gives a sticky session whose id is the digits in lower case. */
  lemma MidText(account: string, digits: string)
    requires ValidAccountName(account)
    requires |digits| == 64 && forall i | 0 <= i < |digits| :: IsHex(digits[i])
    ensures var raw := account + "-mid_" + digits;
      var r := Decode(raw);
      && r.Ok? && IsLowered(r.value.sid, digits)
      && r.value.account == account && r.value.mode == Sticky && r.value.raw == raw
      && !r.value.ttlSet && r.value.ttlMinutes == 0
  {
    MidStands(account, digits);
    MidDecodes(account + "-mid_" + digits, account, digits);
    HexLowered(digits);
  }
}
