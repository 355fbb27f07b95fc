/** The parts of Go's `unicode` and `strings` packages that the censor
    relies on, over strings modelled as sequences of runes (so a rune count
    is a sequence length). */
module GoStrings {

  /** unicode.IsSpace: the runes with Unicode's White_Space property. */
  predicate IsSpace(c: char) {
    ('\t' <= c <= '\r') || c == ' ' || c == '\U{0085}' || c == '\U{00A0}'
    || c == '\U{1680}' || ('\U{2000}' <= c <= '\U{200A}')
    || c == '\U{2028}' || c == '\U{2029}' || c == '\U{202F}'
    || c == '\U{205F}' || c == '\U{3000}'
  }

  /** In the Latin-1 range the white space is tab, line feed, vertical tab,
      form feed, carriage return, space, next line and no-break space. */
  lemma IsSpaceLatin1(c: char)
    requires c <= '\U{00FF}'
    ensures IsSpace(c) <==> c in "\t\n\U{000B}\U{000C}\r \U{0085}\U{00A0}"
  {
  }

  predicate NoSpace(s: string) {
    forall i :: 0 <= i < |s| ==> !IsSpace(s[i])
  }

  predicate AllSpace(s: string) {
    forall i :: 0 <= i < |s| ==> IsSpace(s[i])
  }

  /** The upper-case letters that unicode.ToLower maps in the Latin-1 range. */
  predicate IsUpper(c: char) {
    ('A' <= c <= 'Z') || ('\U{00C0}' <= c <= '\U{00DE}' && c != '\U{00D7}')
  }

  /** unicode.ToLower, for the Basic Latin and Latin-1 blocks. */
  function LowerRune(c: char): (l: char)
    ensures !IsUpper(l)
    ensures IsSpace(l) <==> IsSpace(c)
    ensures !IsUpper(c) ==> l == c
  {
    if IsUpper(c) then (c as int + 32) as char else c
  }

  /** strings.ToLower: maps every rune, so the rune count is kept. */
  function ToLower(s: string): (r: string)
    ensures |r| == |s|
    ensures forall i :: 0 <= i < |s| ==> !IsUpper(r[i]) && (IsSpace(r[i]) <==> IsSpace(s[i]))
  {
    seq(|s|, i requires 0 <= i < |s| => LowerRune(s[i]))
  }

  /** No rune of a lower-cased string is an upper-case letter. */
  lemma ToLowerRunes(s: string)
    ensures forall c :: c in ToLower(s) ==> !IsUpper(c)
  {
  }

  /** A string without upper-case letters is its own lower-case form. */
  lemma ToLowerOfLower(s: string)
    requires forall i :: 0 <= i < |s| ==> !IsUpper(s[i])
    ensures ToLower(s) == s
  {
  }

  /** How many white-space runes `s` starts with. */
  function LeadingSpace(s: string): (n: nat)
    ensures n <= |s| && AllSpace(s[..n])
    ensures n == |s| || !IsSpace(s[n])
    decreases |s|
  {
    if s != [] && IsSpace(s[0]) then
      var n := 1 + LeadingSpace(s[1..]);
      assert s[..n] == [s[0]] + s[1..][..n - 1];
      n
    else 0
  }

  /** How many white-space runes `s` ends with. */
  function TrailingSpace(s: string): (n: nat)
    ensures n <= |s| && AllSpace(s[|s| - n..])
    ensures n == |s| || !IsSpace(s[|s| - n - 1])
    decreases |s|
  {
    if s != [] && IsSpace(s[|s| - 1]) then
      var n := 1 + TrailingSpace(s[..|s| - 1]);
      assert s[|s| - n..] == s[..|s| - 1][|s| - n..] + [s[|s| - 1]];
      n
    else 0
  }

  /** strings.TrimLeftFunc(s, unicode.IsSpace): drops the leading white
      space, and nothing else. */
  function TrimLeft(s: string): (r: string)
    ensures r == [] || !IsSpace(r[0])
    ensures |r| <= |s| && r == s[|s| - |r|..] && AllSpace(s[..|s| - |r|])
  {
    s[LeadingSpace(s)..]
  }

  /** strings.TrimRightFunc(s, unicode.IsSpace): drops the trailing white
      space, and nothing else. */
  function TrimRight(s: string): (r: string)
    ensures r == [] || !IsSpace(r[|r| - 1])
    ensures |r| <= |s| && r == s[..|r|] && AllSpace(s[|r|..])
  {
    s[..|s| - TrailingSpace(s)]
  }

  /** strings.TrimSpace: drops the white space at both ends. */
  function TrimSpace(s: string): (r: string)
    ensures r == [] || (!IsSpace(r[0]) && !IsSpace(r[|r| - 1]))
  {
    var l := TrimLeft(s);
    var r := TrimRight(l);
    assert r != [] ==> r[0] == l[0];
    r
  }

  /** TrimSpace splits `s` into white space, what it keeps, and white
      space: nothing else is dropped, and the order is kept. Here `k` is the
      number of leading runes that TrimLeft drops. */
  lemma TrimSpaceInfix(s: string)
    ensures var k, r := |s| - |TrimLeft(s)|, TrimSpace(s);
      && k + |r| <= |s| && r == s[k..k + |r|]
      && AllSpace(s[..k]) && AllSpace(s[k + |r|..])
  {
    var l := TrimLeft(s);
    var k, r := |s| - |l|, TrimRight(l);
    assert s[k..k + |r|] == l[..|r|];
    assert s[k + |r|..] == l[|r|..];
  }

  /** A string with no white space at all is left as it is. */
  lemma TrimSpaceOfNoSpace(s: string)
    requires NoSpace(s)
    ensures TrimSpace(s) == s
  {
    assert TrimLeft(s) == s;
    assert TrimRight(s) == s;
  }

  /** Every rune that TrimSpace keeps is a rune of its input. */
  lemma TrimSpaceRunes(s: string)
    ensures forall i :: 0 <= i < |TrimSpace(s)| ==> TrimSpace(s)[i] in s
  {
    var k, r := |s| - |TrimLeft(s)|, TrimSpace(s);
    TrimSpaceInfix(s);
    forall i | 0 <= i < |r| ensures r[i] in s {
      assert r[i] == s[k + i];
    }
  }

  /** Trimming a string with no white space at either end changes nothing. */
  lemma TrimSpaceOfTrimmed(s: string)
    requires s == [] || (!IsSpace(s[0]) && !IsSpace(s[|s| - 1]))
    ensures TrimSpace(s) == s
  {
    assert TrimLeft(s) == s;
  }

  /** The length of the run of non-space runes that starts `s`. */
  function RunLength(s: string): (n: nat)
    ensures n <= |s| && NoSpace(s[..n])
    ensures n == |s| || IsSpace(s[n])
    decreases |s|
  {
    if s == [] || IsSpace(s[0]) then 0
    else
      var n := 1 + RunLength(s[1..]);
      assert s[..n] == [s[0]] + s[1..][..n - 1];
      n
  }

  /** strings.Fields: the maximal runs of non-space runes, left to right. */
  function Fields(s: string): (ts: seq<string>)
    ensures forall t :: t in ts ==> |t| > 0 && NoSpace(t)
    decreases |s|
  {
    if s == [] then []
    else if IsSpace(s[0]) then Fields(s[1..])
    else
      var n := RunLength(s);
      [s[..n]] + Fields(s[n..])
  }

  /** Every rune of a field comes from `s`. */
  lemma {:induction false} FieldsRunes(s: string)
    ensures forall t, c :: t in Fields(s) && c in t ==> c in s
    decreases |s|
  {
    if s != [] {
      if IsSpace(s[0]) {
        FieldsRunes(s[1..]);
      } else {
        var n := RunLength(s);
        FieldsRunes(s[n..]);
        assert forall c :: c in s[..n] ==> c in s;
      }
    }
  }

  function Concat(ts: seq<string>): string {
    if ts == [] then [] else ts[0] + Concat(ts[1..])
  }

  /** `s` with every white-space rune deleted. */
  function RemoveSpace(s: string): string {
    if s == [] then []
    else (if IsSpace(s[0]) then [] else [s[0]]) + RemoveSpace(s[1..])
  }

  lemma {:induction false} RemoveSpaceAppend(a: string, b: string)
    ensures RemoveSpace(a + b) == RemoveSpace(a) + RemoveSpace(b)
    decreases |a|
  {
    if a == [] {
      assert a + b == b;
    } else {
      var head := if IsSpace(a[0]) then [] else [a[0]];
      calc {
        RemoveSpace(a + b);
      ==  { assert (a + b)[0] == a[0] && (a + b)[1..] == a[1..] + b; }
        head + RemoveSpace(a[1..] + b);
      ==  { RemoveSpaceAppend(a[1..], b); }
        head + (RemoveSpace(a[1..]) + RemoveSpace(b));
      ==
        (head + RemoveSpace(a[1..])) + RemoveSpace(b);
      }
    }
  }

  lemma {:induction false} RemoveSpaceOfNoSpace(s: string)
    requires NoSpace(s)
    ensures RemoveSpace(s) == s
    decreases |s|
  {
    if s != [] {
      RemoveSpaceOfNoSpace(s[1..]);
    }
  }

  /** Gluing the fields back together gives `s` without its white space:
      nothing but white space is lost, and the order is kept. */
  lemma {:induction false} FieldsConcat(s: string)
    ensures Concat(Fields(s)) == RemoveSpace(s)
    decreases |s|
  {
    if s == [] {
    } else if IsSpace(s[0]) {
      FieldsConcat(s[1..]);
      assert RemoveSpace(s) == [] + RemoveSpace(s[1..]);
    } else {
      var n := RunLength(s);
      var ts := [s[..n]] + Fields(s[n..]);
      assert Fields(s) == ts;
      assert ts[0] == s[..n] && ts[1..] == Fields(s[n..]);
      FieldsConcat(s[n..]);
      assert s == s[..n] + s[n..];
      RemoveSpaceAppend(s[..n], s[n..]);
      RemoveSpaceOfNoSpace(s[..n]);
    }
  }

  /** The tokens joined with single spaces, as a caller would print them. */
  function JoinSpace(ts: seq<string>): string {
    if ts == [] then []
    else if |ts| == 1 then ts[0]
    else ts[0] + " " + JoinSpace(ts[1..])
  }

  lemma {:induction false} RunLengthPrefix(t: string, rest: string)
    requires NoSpace(t)
    requires rest == [] || IsSpace(rest[0])
    ensures RunLength(t + rest) == |t|
    decreases |t|
  {
    if t != [] {
      assert (t + rest)[1..] == t[1..] + rest;
      RunLengthPrefix(t[1..], rest);
    }
  }

  /** A single word without white space is its own only field. */
  lemma FieldsOfWord(t: string)
    requires |t| > 0 && NoSpace(t)
    ensures Fields(t) == [t]
  {
    RunLengthPrefix(t, []);
    assert t + [] == t;
    assert t[|t|..] == [];
  }

  /** A word followed by white space is the first field. */
  lemma FieldsOfWordThenSpace(t: string, rest: string)
    requires |t| > 0 && NoSpace(t) && |rest| > 0 && IsSpace(rest[0])
    ensures Fields(t + rest) == [t] + Fields(rest[1..])
  {
    var s := t + rest;
    RunLengthPrefix(t, rest);
    assert s[..|t|] == t && s[|t|..] == rest;
  }

  /** The first of several joined words is their first field. */
  lemma FieldsOfJoinStep(ts: seq<string>)
    requires |ts| > 1 && |ts[0]| > 0 && NoSpace(ts[0])
    ensures Fields(JoinSpace(ts)) == [ts[0]] + Fields(JoinSpace(ts[1..]))
  {
    var t, rest := ts[0], " " + JoinSpace(ts[1..]);
    assert JoinSpace(ts) == t + rest;
    FieldsOfWordThenSpace(t, rest);
    assert rest[1..] == JoinSpace(ts[1..]);
  }

  /** Fields undoes JoinSpace on non-empty tokens without white space: the
      fields of words joined by single spaces are those words. */
  lemma {:induction false} FieldsOfJoin(ts: seq<string>)
    requires forall i :: 0 <= i < |ts| ==> |ts[i]| > 0 && NoSpace(ts[i])
    ensures Fields(JoinSpace(ts)) == ts
    decreases |ts|
  {
    if ts == [] {
    } else if |ts| == 1 {
      FieldsOfWord(ts[0]);
    } else {
      FieldsOfJoinStep(ts);
      FieldsOfJoin(ts[1..]);
      assert ts == [ts[0]] + ts[1..];
    }
  }

  /** strings.Repeat(s, count). */
  function Repeat(s: string, count: nat): (r: string)
    ensures |s| == 1 ==> |r| == count && forall i :: 0 <= i < |r| ==> r[i] == s[0]
  {
    if count == 0 then [] else s + Repeat(s, count - 1)
  }

  /** `p` occurs in `s` starting at index `i`. */
  predicate OccursAt(s: string, p: string, i: int) {
    0 <= i && i + |p| <= |s| && s[i..i + |p|] == p
  }

  predicate Occurs(s: string, p: string) {
    exists i :: 0 <= i <= |s| - |p| && OccursAt(s, p, i)
  }

  /** strings.ReplaceAll(s, pat, rep) for a non-empty `pat`: scanning from the
      left, each occurrence of `pat` that does not overlap an earlier replaced
      one is replaced by `rep`. */
  function ReplaceLeftmost(s: string, pat: string, rep: string): string
    requires |pat| > 0
    decreases |s|
  {
    if |s| < |pat| then s
    else if s[..|pat|] == pat then rep + ReplaceLeftmost(s[|pat|..], pat, rep)
    else [s[0]] + ReplaceLeftmost(s[1..], pat, rep)
  }

  /** The scan moves past a rune that cannot start `pat`. */
  lemma ReplaceLeftmostSkip(c: char, s: string, pat: string, rep: string)
    requires |pat| > 0 && c != pat[0]
    ensures ReplaceLeftmost([c] + s, pat, rep) == [c] + ReplaceLeftmost(s, pat, rep)
  {
    assert ([c] + s)[1..] == s;
    if |s| + 1 < |pat| {
      assert |s| < |pat|;
    } else {
      assert ([c] + s)[..|pat|][0] == c;
    }
  }

  /** The scan moves past a stretch in which `pat` cannot start. */
  lemma {:induction false} ReplaceLeftmostSkipAll(a: string, s: string, pat: string, rep: string)
    requires |pat| > 0 && pat[0] !in a
    ensures ReplaceLeftmost(a + s, pat, rep) == a + ReplaceLeftmost(s, pat, rep)
    decreases |a|
  {
    if a == [] {
      assert a + s == s;
    } else {
      var rest := ReplaceLeftmost(s, pat, rep);
      assert a + s == [a[0]] + (a[1..] + s);
      ReplaceLeftmostSkip(a[0], a[1..] + s, pat, rep);
      ReplaceLeftmostSkipAll(a[1..], s, pat, rep);
      assert [a[0]] + (a[1..] + rest) == a + rest by {
        assert a == [a[0]] + a[1..];
      }
    }
  }

  /** The scan replaces an occurrence of `pat` at its current position. */
  lemma ReplaceLeftmostHit(s: string, pat: string, rep: string)
    requires |pat| > 0
    ensures ReplaceLeftmost(pat + s, pat, rep) == rep + ReplaceLeftmost(s, pat, rep)
  {
    assert (pat + s)[..|pat|] == pat && (pat + s)[|pat|..] == s;
  }

  /** strings.ReplaceAll(s, "", rep): `rep` goes before every rune and at the end. */
  function InsertAround(s: string, rep: string): string {
    if s == [] then rep else rep + [s[0]] + InsertAround(s[1..], rep)
  }

  /** One copy of `rep` before each rune and one at the end. */
  lemma {:induction false} InsertAroundLength(s: string, rep: string)
    ensures |InsertAround(s, rep)| == |s| + (|s| + 1) * |rep|
    decreases |s|
  {
    if s != [] {
      InsertAroundLength(s[1..], rep);
      assert (|s| + 1) * |rep| == |s| * |rep| + |rep|;
      assert |s| * |rep| == (|s| - 1 + 1) * |rep|;
    }
  }

  /** Cutting the result into blocks of `|rep| + 1` runes, each block is
      `rep` followed by the next rune of `s`, and the last block is `rep`
      alone. */
  lemma InsertAroundLayout(s: string, rep: string)
    ensures forall p :: 0 <= p < |InsertAround(s, rep)| && p % (|rep| + 1) < |rep| ==>
      InsertAround(s, rep)[p] == rep[p % (|rep| + 1)]
    ensures forall p :: 0 <= p < |InsertAround(s, rep)| && p % (|rep| + 1) == |rep| ==>
      p / (|rep| + 1) < |s| && InsertAround(s, rep)[p] == s[p / (|rep| + 1)]
  {
    var r, k := InsertAround(s, rep), |rep| + 1;
    forall p | 0 <= p < |r| && p % k < |rep| ensures r[p] == rep[p % k] {
      InsertAroundAt(s, rep, p);
    }
    forall p | 0 <= p < |r| && p % k == |rep| ensures p / k < |s| && r[p] == s[p / k] {
      InsertAroundAt(s, rep, p);
    }
  }

  lemma {:induction false} InsertAroundAt(s: string, rep: string, p: int)
    requires 0 <= p < |InsertAround(s, rep)|
    ensures p % (|rep| + 1) < |rep| ==> InsertAround(s, rep)[p] == rep[p % (|rep| + 1)]
    ensures p % (|rep| + 1) == |rep| ==> p / (|rep| + 1) < |s| && InsertAround(s, rep)[p] == s[p / (|rep| + 1)]
    decreases |s|
  {
    var k := |rep| + 1;
    if s == [] || p < k {
      DivModSmall(p, k);
    } else {
      var tail := InsertAround(s[1..], rep);
      assert InsertAround(s, rep) == (rep + [s[0]]) + tail;
      DivModShift(p, k);
      InsertAroundAt(s[1..], rep, p - k);
    }
  }

  lemma DivModSmall(p: int, k: int)
    requires 0 <= p < k
    ensures p % k == p && p / k == 0
  {
  }

  lemma DivModShift(p: int, k: int)
    requires 0 < k <= p
    ensures p % k == (p - k) % k && p / k == (p - k) / k + 1
  {
    var q, m := (p - k) / k, (p - k) % k;
    assert p - k == q * k + m;
    assert p == (q + 1) * k + m;
    DivModUnique(p, k, q + 1, m);
  }

  /** Division with remainder has one answer. */
  lemma DivModUnique(p: int, k: int, a: int, b: int)
    requires 0 < k && 0 <= b < k && p == a * k + b
    ensures p / k == a && p % k == b
  {
    var d := a - p / k;
    assert p == (p / k) * k + p % k;
    assert d * k == a * k - (p / k) * k;
    assert d * k == p % k - b;
  }

  /** strings.ReplaceAll, with its early return when `pat` equals `rep`: the
      result is that of the replacement without the shortcut. */
  function ReplaceAll(s: string, pat: string, rep: string): (r: string)
    ensures r == if pat == [] then InsertAround(s, rep) else ReplaceLeftmost(s, pat, rep)
  {
    if pat == rep then
      if pat == [] then (InsertAroundNothing(s); s) else (ReplaceLeftmostSelf(s, pat); s)
    else if pat == [] then InsertAround(s, rep)
    else ReplaceLeftmost(s, pat, rep)
  }

  /** Inserting the empty text around every rune changes nothing. */
  lemma {:induction false} InsertAroundNothing(s: string)
    ensures InsertAround(s, []) == s
    decreases |s|
  {
    if s != [] {
      InsertAroundNothing(s[1..]);
      assert s == [s[0]] + s[1..];
    }
  }

  /** Replacing a text by itself changes nothing. */
  lemma {:induction false} ReplaceLeftmostSelf(s: string, pat: string)
    requires |pat| > 0
    ensures ReplaceLeftmost(s, pat, pat) == s
    decreases |s|
  {
    if |s| < |pat| {
    } else if s[..|pat|] == pat {
      ReplaceLeftmostSelf(s[|pat|..], pat);
      assert s == pat + s[|pat|..];
    } else {
      ReplaceLeftmostSelf(s[1..], pat);
      assert s == [s[0]] + s[1..];
    }
  }

  /** A text with no occurrence of `pat` comes back unchanged. */
  lemma {:induction false} ReplaceAllAbsent(s: string, pat: string, rep: string)
    requires !Occurs(s, pat)
    ensures ReplaceAll(s, pat, rep) == s
    decreases |s|
  {
    assert OccursAt(s, pat, 0) == (pat == []) by {
      assert pat == [] ==> s[0..0] == pat;
    }
    if pat != rep && pat != [] && |s| >= |pat| {
      forall i | OccursAt(s[1..], pat, i) ensures OccursAt(s, pat, i + 1) {
        assert s[1..][i..i + |pat|] == s[i + 1..i + 1 + |pat|];
      }
      ReplaceAllAbsent(s[1..], pat, rep);
      assert s == [s[0]] + s[1..];
    }
  }

  /** Replacing `pat` by a same-length run of one rune `c` keeps the length,
      and each rune either stays or becomes `c` where it was part of `pat`. */
  lemma {:induction false} ReplaceMasks(s: string, pat: string, rep: string, c: char)
    requires |pat| > 0 && |rep| == |pat|
    requires forall k :: 0 <= k < |rep| ==> rep[k] == c
    ensures |ReplaceLeftmost(s, pat, rep)| == |s|
    ensures forall i :: 0 <= i < |s| ==>
      ReplaceLeftmost(s, pat, rep)[i] == s[i]
      || (ReplaceLeftmost(s, pat, rep)[i] == c && s[i] in pat)
    decreases |s|
  {
    var r := ReplaceLeftmost(s, pat, rep);
    if |s| < |pat| {
    } else if s[..|pat|] == pat {
      var rest := s[|pat|..];
      ReplaceMasks(rest, pat, rep, c);
      forall i | 0 <= i < |s| ensures r[i] == s[i] || (r[i] == c && s[i] in pat) {
        if i < |pat| {
          assert r[i] == rep[i] && s[i] == pat[i];
        } else {
          assert r[i] == ReplaceLeftmost(rest, pat, rep)[i - |pat|] && s[i] == rest[i - |pat|];
        }
      }
    } else {
      ReplaceMasks(s[1..], pat, rep, c);
      forall i | 0 <= i < |s| ensures r[i] == s[i] || (r[i] == c && s[i] in pat) {
        if i > 0 {
          assert r[i] == ReplaceLeftmost(s[1..], pat, rep)[i - 1] && s[i] == s[1..][i - 1];
        }
      }
    }
  }

  /** Replacing `pat` by a text of the same length keeps the length, and
      changes a rune only inside an occurrence of `pat` in the input. */
  lemma {:induction false} ReplaceWithinOccurrences(s: string, pat: string, rep: string)
    requires |pat| > 0 && |rep| == |pat|
    ensures |ReplaceLeftmost(s, pat, rep)| == |s|
    ensures forall i :: 0 <= i < |s| && ReplaceLeftmost(s, pat, rep)[i] != s[i] ==>
      exists j :: j <= i < j + |pat| && OccursAt(s, pat, j)
    decreases |s|
  {
    var r := ReplaceLeftmost(s, pat, rep);
    if |s| < |pat| {
    } else if s[..|pat|] == pat {
      var rest := s[|pat|..];
      ReplaceWithinOccurrences(rest, pat, rep);
      forall i | 0 <= i < |s| && r[i] != s[i]
        ensures exists j :: j <= i < j + |pat| && OccursAt(s, pat, j)
      {
        if i < |pat| {
          assert OccursAt(s, pat, 0);
        } else {
          assert r[i] == ReplaceLeftmost(rest, pat, rep)[i - |pat|] && s[i] == rest[i - |pat|];
          var j :| j <= i - |pat| < j + |pat| && OccursAt(rest, pat, j);
          ShiftOccurrence(s, |pat|, pat, j);
        }
      }
    } else {
      var rest := s[1..];
      ReplaceWithinOccurrences(rest, pat, rep);
      forall i | 0 <= i < |s| && r[i] != s[i]
        ensures exists j :: j <= i < j + |pat| && OccursAt(s, pat, j)
      {
        assert i > 0;
        assert r[i] == ReplaceLeftmost(rest, pat, rep)[i - 1] && s[i] == rest[i - 1];
        var j :| j <= i - 1 < j + |pat| && OccursAt(rest, pat, j);
        ShiftOccurrence(s, 1, pat, j);
      }
    }
  }

  /** An occurrence in a suffix of `s` is an occurrence in `s`. */
  lemma ShiftOccurrence(s: string, d: nat, pat: string, j: int)
    requires d <= |s| && OccursAt(s[d..], pat, j)
    ensures OccursAt(s, pat, j + d)
  {
    assert s[d..][j..j + |pat|] == s[j + d..j + d + |pat|];
  }

  /** A run of `c` in front of a text free of `pat` adds no occurrence of
      `pat` when `c` is not in `pat`. */
  lemma MaskPrefixKeepsAbsent(rep: string, tail: string, pat: string, c: char)
    requires |pat| > 0 && |rep| == |pat|
    requires forall k :: 0 <= k < |rep| ==> rep[k] == c
    requires c !in pat && !Occurs(tail, pat)
    ensures !Occurs(rep + tail, pat)
  {
    var r := rep + tail;
    forall i | 0 <= i ensures !OccursAt(r, pat, i) {
      if i < |pat| && i + |pat| <= |r| {
        assert r[i..i + |pat|][0] == r[i] == c;
      } else if i + |pat| <= |r| {
        assert r[i..i + |pat|] == tail[i - |pat|..i];
        assert !OccursAt(tail, pat, i - |pat|);
      }
    }
  }

  /** One rune in front of a text free of `pat` adds no occurrence of `pat`
      unless `pat` starts right there. */
  lemma ConsKeepsAbsent(x: char, tail: string, pat: string)
    requires |pat| > 0 && !Occurs(tail, pat) && !OccursAt([x] + tail, pat, 0)
    ensures !Occurs([x] + tail, pat)
  {
    var r := [x] + tail;
    forall i | 1 <= i ensures !OccursAt(r, pat, i) {
      if i + |pat| <= |r| {
        assert r[i..i + |pat|] == tail[i - 1..i - 1 + |pat|];
        assert !OccursAt(tail, pat, i - 1);
      }
    }
  }

  /** When the replacement runes cannot be part of `pat`, no occurrence of
      `pat` is left afterwards: every one was replaced. */
  lemma {:induction false} ReplaceLeavesNone(s: string, pat: string, rep: string, c: char)
    requires |pat| > 0 && |rep| == |pat|
    requires forall k :: 0 <= k < |rep| ==> rep[k] == c
    requires c !in pat
    ensures !Occurs(ReplaceLeftmost(s, pat, rep), pat)
    decreases |s|
  {
    if |s| < |pat| {
    } else if s[..|pat|] == pat {
      ReplaceLeavesNone(s[|pat|..], pat, rep, c);
      MaskPrefixKeepsAbsent(rep, ReplaceLeftmost(s[|pat|..], pat, rep), pat, c);
    } else {
      var r := ReplaceLeftmost(s, pat, rep);
      ReplaceMasks(s, pat, rep, c);
      ReplaceLeavesNone(s[1..], pat, rep, c);
      assert !OccursAt(r, pat, 0) by {
        if |pat| <= |r| {
          var k :| 0 <= k < |pat| && s[k] != pat[k];
          assert r[..|pat|][k] == r[k];
        }
      }
      ConsKeepsAbsent(s[0], ReplaceLeftmost(s[1..], pat, rep), pat);
    }
  }

  /** Overwriting runes with `c` cannot create an occurrence of a pattern
      that does not contain `c`. */
  lemma MaskKeepsAbsent(s: string, t: string, p: string, c: char)
    requires |t| == |s|
    requires forall i :: 0 <= i < |s| ==> t[i] == s[i] || t[i] == c
    requires c !in p && !Occurs(s, p)
    ensures !Occurs(t, p)
  {
    forall i | OccursAt(t, p, i) ensures OccursAt(s, p, i) {
      MaskedOccurrence(s, t, p, c, i);
    }
  }

  /** An occurrence of `p` in a copy of `s` with some runes overwritten by
      `c` is an occurrence in `s` itself when `c` is not in `p`. */
  lemma MaskedOccurrence(s: string, t: string, p: string, c: char, i: int)
    requires |t| == |s|
    requires forall k :: 0 <= k < |s| ==> t[k] == s[k] || t[k] == c
    requires c !in p && OccursAt(t, p, i)
    ensures OccursAt(s, p, i)
  {
    forall k | 0 <= k < |p| ensures s[i + k] == p[k] {
      assert t[i..i + |p|][k] == t[i + k];
    }
    assert s[i..i + |p|] == p;
  }
}
