/**
 * The handful of Python `str` operations the prompt code relies on, with the
 * semantics CPython gives them: `strip`, `in`, `split(sep)`, `sep.join`,
 * `replace(old, new)` and `str(int)`. Strings are sequences of Dafny `char`s,
 * that is of Unicode scalar values: the lone surrogates a Python `str` can
 * hold are not represented.
 */
module PyStrings {
  import opened Wrappers

  // ---------------------------------------------------------------------------
  // Whitespace and strip()

  /** The characters for which Python's `str.isspace()` is true. */
  predicate IsSpace(c: char) {
    || c == ' ' || c == '\t' || c == '\n' || c == '\r' || c == '\U{0B}' || c == '\U{0C}'
    || c == '\U{1C}' || c == '\U{1D}' || c == '\U{1E}' || c == '\U{1F}'
    || c == '\U{85}' || c == '\U{A0}' || c == '\U{1680}'
    || ('\U{2000}' <= c <= '\U{200A}')
    || c == '\U{2028}' || c == '\U{2029}' || c == '\U{202F}' || c == '\U{205F}' || c == '\U{3000}'
  }

  predicate AllSpace(s: string) {
    forall k :: 0 <= k < |s| ==> IsSpace(s[k])
  }

  /** The number of whitespace characters `s.lstrip()` removes. */
  function LeadingSpaces(s: string): (n: nat)
    ensures n <= |s|
    ensures forall k :: 0 <= k < n ==> IsSpace(s[k])
    ensures n < |s| ==> !IsSpace(s[n])
    decreases |s|
  {
    if s != [] && IsSpace(s[0]) then
      var m := LeadingSpaces(s[1..]);
      assert forall k :: 1 <= k < m + 1 ==> s[k] == s[1..][k - 1];
      1 + m
    else 0
  }

  /** The length of `s.rstrip()`: everything from this index on is whitespace. */
  function KeptLength(s: string): (n: nat)
    ensures n <= |s|
    ensures forall k :: n <= k < |s| ==> IsSpace(s[k])
    ensures n > 0 ==> !IsSpace(s[n - 1])
    decreases |s|
  {
    if s != [] && IsSpace(s[|s| - 1]) then KeptLength(s[..|s| - 1]) else |s|
  }

  /** `s.lstrip()`: drop leading whitespace. */
  function LStrip(s: string): string {
    s[LeadingSpaces(s)..]
  }

  /** `s.rstrip()`: drop trailing whitespace. */
  function RStrip(s: string): string {
    s[..KeptLength(s)]
  }

  /** `s.strip()`: drop whitespace at both ends. */
  function Strip(s: string): (r: string)
    ensures |r| <= |s|
    ensures r != [] ==> !IsSpace(r[0]) && !IsSpace(r[|r| - 1])
  {
    LStrip(RStrip(s))
  }

  /** `s.strip()` is a slice of `s`, so it holds no character that `s` lacks. */
  lemma StripChars(s: string)
    ensures Strip(s) == s[LeadingSpaces(RStrip(s))..KeptLength(s)]
    ensures forall c :: c in Strip(s) ==> c in s
  {
    var n, m := LeadingSpaces(RStrip(s)), KeptLength(s);
    assert Strip(s) == s[n..m];
    forall c | c in s[n..m] ensures c in s {
      var k :| 0 <= k < m - n && s[n..m][k] == c;
      assert s[n + k] == c;
    }
  }

  /** The characterisation of KeptLength fixes it: whitespace after it, a non-space just before it. */
  lemma KeptLengthUnique(s: string, n: nat)
    requires n <= |s| && forall k :: n <= k < |s| ==> IsSpace(s[k])
    requires n > 0 ==> !IsSpace(s[n - 1])
    ensures KeptLength(s) == n
  {
  }

  /**
   * A text laid out as "\n" + body + "\n" (a triple-quoted f-string) and then
   * stripped loses exactly the leading newline and the body's trailing whitespace,
   * provided the body starts with a non-space character.
   */
  lemma StripFramed(body: string)
    requires body != [] && !IsSpace(body[0])
    ensures Strip("\n" + body + "\n") == RStrip(body)
  {
    var s := "\n" + body + "\n";
    var m := KeptLength(body);
    assert m > 0;
    KeptLengthUnique(s, m + 1);
    var t := RStrip(s);
    assert t == "\n" + body[..m];
    assert LeadingSpaces(t) == 1;
    assert t[1..] == body[..m];
  }

  /** `rstrip` never removes a prefix that ends in a non-space character. */
  lemma RStripKeepsPrefix(p: string, s: string)
    requires p != [] && !IsSpace(p[|p| - 1])
    ensures |RStrip(p + s)| >= |p| && RStrip(p + s)[..|p|] == p
  {
    var r := RStrip(p + s);
    assert forall k :: |r| <= k < |p + s| ==> IsSpace((p + s)[k]) by {
      forall k | |r| <= k < |p + s| ensures IsSpace((p + s)[k]) { assert (p + s)[|r|..][k - |r|] == (p + s)[k]; }
    }
    assert (p + s)[|p| - 1] == p[|p| - 1];
    assert |r| >= |p|;
    assert r[..|p|] == (p + s)[..|p|];
  }

  /**
   * A framed text whose body opens with a non-space-delimited head keeps the
   * head: stripping leaves a prefix of the body that extends past the head,
   * followed in the body only by whitespace.
   */
  lemma StripFramedPrefix(head: string, tail: string)
    requires head != [] && !IsSpace(head[0]) && !IsSpace(head[|head| - 1])
    ensures var body := head + tail;
            var r := Strip("\n" + body + "\n");
            && |head| <= |r| <= |body|
            && r[..|head|] == head
            && r == body[..|r|]
            && AllSpace(body[|r|..])
  {
    var body := head + tail;
    assert body[0] == head[0];
    StripFramed(body);
    RStripKeepsPrefix(head, tail);
    var m := KeptLength(body);
    forall k | 0 <= k < |body[m..]| ensures IsSpace(body[m..][k]) {
      assert body[m..][k] == body[m + k];
    }
  }

  // ---------------------------------------------------------------------------
  // Substring search: `sub in s`

  predicate OccursAt(s: string, sub: string, i: nat) {
    i + |sub| <= |s| && s[i..i + |sub|] == sub
  }

  /** The first index at which `sub` occurs in `s` (Python's `s.find(sub)`, with None for -1). */
  function Find(s: string, sub: string): (r: Option<nat>)
    ensures r.Some? ==> OccursAt(s, sub, r.value)
    ensures r.Some? ==> forall j: nat :: j < r.value ==> !OccursAt(s, sub, j)
    ensures r.None? ==> forall j: nat :: !OccursAt(s, sub, j)
    decreases |s|
  {
    if |s| < |sub| then None
    else if s[..|sub|] == sub then Some(0)
    else
      var rest := Find(s[1..], sub);
      OccurrencesShift(s, sub);
      match rest
      case None => None
      case Some(i) => Some(i + 1)
  }

  /** Past the first character, occurrences in `s` are occurrences in `s[1..]`, one index earlier. */
  lemma OccurrencesShift(s: string, sub: string)
    requires s != []
    ensures forall j: nat :: j > 0 ==> (OccursAt(s, sub, j) <==> OccursAt(s[1..], sub, j - 1))
  {
    forall j: nat | j > 0 ensures OccursAt(s, sub, j) <==> OccursAt(s[1..], sub, j - 1) {
      if j + |sub| <= |s| {
        assert s[1..][j - 1..j - 1 + |sub|] == s[j..j + |sub|];
      }
    }
  }

  /** Python's `sub in s`. */
  predicate Contains(s: string, sub: string) {
    Find(s, sub).Some?
  }

  /** Whatever occurs in `s.strip()` occurs in `s`. */
  lemma ContainsOfStrip(s: string, pat: string)
    requires Contains(Strip(s), pat)
    ensures Contains(s, pat)
  {
    StripChars(s);
    ContainsOfSlice(s, LeadingSpaces(RStrip(s)), KeptLength(s), pat);
  }

  /** An occurrence in a slice is an occurrence in the whole text. */
  lemma ContainsOfSlice(s: string, lo: nat, hi: nat, pat: string)
    requires lo <= hi <= |s| && Contains(s[lo..hi], pat)
    ensures Contains(s, pat)
  {
    var r := s[lo..hi];
    var j := Find(r, pat).value;
    assert OccursAt(r, pat, j);
    var window := s[lo + j..lo + j + |pat|];
    forall k | 0 <= k < |pat| ensures window[k] == pat[k] {
      assert window[k] == s[lo + j + k] == r[j + k];
    }
    assert window == pat;
    assert OccursAt(s, pat, lo + j);
  }

  // ---------------------------------------------------------------------------
  // split, join and replace

  /** `sep.join(parts)`. */
  function Join(parts: seq<string>, sep: string): string
    decreases |parts|
  {
    if |parts| == 0 then ""
    else if |parts| == 1 then parts[0]
    else parts[0] + sep + Join(parts[1..], sep)
  }

  /**
   * `s.split(sep)` for a non-empty separator: the pieces between the
   * non-overlapping occurrences of `sep`, found left to right.
   */
  function Split(s: string, sep: string): (parts: seq<string>)
    requires sep != []
    ensures |parts| >= 1
    ensures forall k :: 0 <= k < |parts| ==> !Contains(parts[k], sep)
    decreases |s|
  {
    match Find(s, sep)
    case None => [s]
    case Some(i) =>
      NothingBeforeFirst(s, sep, i);
      [s[..i]] + Split(s[i + |sep|..], sep)
  }

  /** The text before the first occurrence of `sep` holds no occurrence of it. */
  lemma NothingBeforeFirst(s: string, sep: string, i: nat)
    requires sep != [] && Find(s, sep) == Some(i)
    ensures !Contains(s[..i], sep)
  {
    var head := s[..i];
    forall j: nat ensures !OccursAt(head, sep, j) {
      if j + |sep| <= |head| {
        assert head[j..j + |sep|] == s[j..j + |sep|];
        assert !OccursAt(s, sep, j);
      }
    }
  }

  /** The pieces of a split hold no character that the text lacks. */
  lemma {:induction false} SplitChars(s: string, sep: string)
    requires sep != []
    ensures forall p, c :: p in Split(s, sep) && c in p ==> c in s
    decreases |s|
  {
    match Find(s, sep)
    case None =>
    case Some(i) =>
      var head, tail := s[..i], s[i + |sep|..];
      var rest := Split(tail, sep);
      assert Split(s, sep) == [head] + rest;
      SplitChars(tail, sep);
      SliceChars(s, 0, i);
      SliceChars(s, i + |sep|, |s|);
      forall p, c | p in [head] + rest && c in p ensures c in s {
        if p != head {
          assert p in rest;
        }
      }
  }

  /** A slice holds no character that the text lacks. */
  lemma SliceChars(s: string, lo: nat, hi: nat)
    requires lo <= hi <= |s|
    ensures forall c :: c in s[lo..hi] ==> c in s
  {
    forall c | c in s[lo..hi] ensures c in s {
      var k :| 0 <= k < hi - lo && s[lo..hi][k] == c;
      assert s[lo + k] == c;
    }
  }

  /** `s.replace(pat, repl)` for a non-empty `pat`. */
  function Replace(s: string, pat: string, repl: string): string
    requires pat != []
  {
    Join(Split(s, pat), repl)
  }

  /** Joining the pieces of a split with the same separator gives back the original text. */
  lemma {:induction false} JoinSplit(s: string, sep: string)
    requires sep != []
    ensures Join(Split(s, sep), sep) == s
    decreases |s|
  {
    match Find(s, sep)
    case None =>
    case Some(i) =>
      var head, tail := s[..i], s[i + |sep|..];
      assert s == head + s[i..i + |sep|] + tail;
      var rest := Split(tail, sep);
      assert Split(s, sep) == [head] + rest;
      JoinSplit(tail, sep);
      JoinCons(head, rest, sep);
  }

  /** Joining a head in front of a non-empty list puts one separator between them. */
  lemma JoinCons(head: string, rest: seq<string>, sep: string)
    requires |rest| >= 1
    ensures Join([head] + rest, sep) == head + sep + Join(rest, sep)
  {
    assert ([head] + rest)[1..] == rest;
  }

  /** Every character of a join comes from one of the pieces or from the separator. */
  lemma {:induction false} JoinChars(parts: seq<string>, sep: string, c: char)
    requires c in Join(parts, sep)
    ensures c in sep || exists p :: p in parts && c in p
    decreases |parts|
  {
    if |parts| > 1 {
      var rest := Join(parts[1..], sep);
      if c !in parts[0] && c !in sep {
        assert c in rest;
        JoinChars(parts[1..], sep, c);
        var p :| p in parts[1..] && c in p;
        assert p in parts;
      }
    }
  }

  /** Replacing a character by a text that lacks it removes every occurrence of it. */
  lemma ReplaceRemovesChar(s: string, c: char, repl: string)
    requires c !in repl
    ensures c !in Replace(s, [c], repl)
  {
    var parts := Split(s, [c]);
    if c in Join(parts, repl) {
      JoinChars(parts, repl, c);
      var p :| p in parts && c in p;
      var k :| 0 <= k < |parts| && parts[k] == p;
      var j :| 0 <= j < |p| && p[j] == c;
      assert OccursAt(p, [c], j);
    }
  }

  /**
   * Joining pieces free of `pat` with a separator that shares no character
   * with `pat` cannot create an occurrence of `pat`.
   */
  lemma {:induction false} NoOccurrenceInJoin(parts: seq<string>, sep: string, pat: string)
    requires pat != [] && sep != []
    requires forall k :: 0 <= k < |parts| ==> !Contains(parts[k], pat)
    requires forall c :: c in sep ==> c !in pat
    ensures !Contains(Join(parts, sep), pat)
    decreases |parts|
  {
    if |parts| > 1 {
      var x, z := parts[0], Join(parts[1..], sep);
      NoOccurrenceInJoin(parts[1..], sep, pat);
      var j := x + sep + z;
      assert Join(parts, sep) == j;
      forall i: nat ensures !OccursAt(j, pat, i) {
        if i + |pat| <= |x| {
          assert x[i..i + |pat|] == j[i..i + |pat|];
          assert !OccursAt(parts[0], pat, i);
        } else if i >= |x| + |sep| && i + |pat| <= |j| {
          assert z[i - |x| - |sep|..i - |x| - |sep| + |pat|] == j[i..i + |pat|];
          assert !OccursAt(z, pat, i - |x| - |sep|);
        } else if i + |pat| <= |j| {
          var p := if i < |x| then |x| else i;
          assert j[p] == sep[p - |x|] && j[p] !in pat;
          assert j[i..i + |pat|][p - i] == j[p];
        }
      }
    }
  }

  /** A pattern with a character the text lacks does not occur in it. */
  lemma AbsentCharNotContained(s: string, pat: string, c: char)
    requires c in pat && c !in s
    ensures !Contains(s, pat)
  {
    forall j: nat ensures !OccursAt(s, pat, j) {
      if j + |pat| <= |s| {
        var k :| 0 <= k < |pat| && pat[k] == c;
        assert s[j..j + |pat|][k] == s[j + k];
      }
    }
  }

  /** No proper suffix of `sep` is also a prefix of it, so two occurrences never overlap. */
  predicate BorderFree(sep: string) {
    forall k :: 0 < k < |sep| ==> sep[k..] != sep[..|sep| - k]
  }

  /**
   * In `x + sep + z` with `x` free of a border-free `sep`, the first occurrence
   * of `sep` is the one right after `x`.
   */
  lemma FindAfterPart(x: string, sep: string, z: string)
    requires sep != [] && BorderFree(sep) && !Contains(x, sep)
    ensures Find(x + sep + z, sep) == Some(|x|)
  {
    var s := x + sep + z;
    assert s[|x|..|x| + |sep|] == sep;
    assert OccursAt(s, sep, |x|);
    forall j: nat | j < |x| ensures !OccursAt(s, sep, j) {
      if j + |sep| <= |x| {
        assert s[j..j + |sep|] == x[j..j + |sep|];
        assert !OccursAt(x, sep, j);
      } else {
        var k := |x| - j;
        assert s[j..j + |sep|][k..] == s[|x|..j + |sep|] == sep[..|sep| - k];
      }
    }
  }

  /** A separator whose first character does not recur in it is border-free. */
  lemma HeadUniqueBorderFree(sep: string)
    requires sep != [] && forall k :: 0 < k < |sep| ==> sep[k] != sep[0]
    ensures BorderFree(sep)
  {
    forall k | 0 < k < |sep| ensures sep[k..] != sep[..|sep| - k] {
      assert sep[k..][0] == sep[k] && sep[..|sep| - k][0] == sep[0];
    }
  }

  /** In `x + sep + z` with `x` and `z` free of a border-free `sep`, the only occurrence is the middle one. */
  lemma SingleOccurrence(x: string, sep: string, z: string, j: nat)
    requires sep != [] && BorderFree(sep) && !Contains(x, sep) && !Contains(z, sep)
    requires OccursAt(x + sep + z, sep, j)
    ensures j == |x|
  {
    FindAfterPart(x, sep, z);
    if j > |x| {
      if j < |x| + |sep| {
        NoOverlappingOccurrence(x, sep, z, j);
      } else {
        NoOccurrenceAfter(x, sep, z, j);
      }
    }
  }

  /** An occurrence of a border-free `sep` cannot start inside another one. */
  lemma NoOverlappingOccurrence(x: string, sep: string, z: string, i: nat)
    requires BorderFree(sep) && |x| < i < |x| + |sep|
    ensures !OccursAt(x + sep + z, sep, i)
  {
    var s := x + sep + z;
    var k := i - |x|;
    if i + |sep| <= |s| {
      assert sep[k..] != sep[..|sep| - k];
      assert s[i..i + |sep|][..|sep| - k] == s[i..|x| + |sep|] == sep[k..];
    }
  }

  /** Past the separator, occurrences in `x + sep + z` are occurrences in `z`. */
  lemma NoOccurrenceAfter(x: string, sep: string, z: string, i: nat)
    requires !Contains(z, sep) && i >= |x| + |sep|
    ensures !OccursAt(x + sep + z, sep, i)
  {
    var s := x + sep + z;
    if i + |sep| <= |s| {
      assert s[i..i + |sep|] == z[i - |x| - |sep|..i - |x| - |sep| + |sep|];
      assert !OccursAt(z, sep, i - |x| - |sep|);
    }
  }

  /** `s` holds `sep` exactly once: what lies before it and what lies after it are free of it. */
  ghost predicate OneOccurrence(s: string, sep: string) {
    exists u, v :: s == u + sep + v && !Contains(u, sep) && !Contains(v, sep)
  }

  /** A text with exactly one border-free separator splits into the text before it and the text after it. */
  lemma SplitInTwo(u: string, sep: string, v: string)
    requires sep != [] && BorderFree(sep) && !Contains(u, sep) && !Contains(v, sep)
    ensures Split(u + sep + v, sep) == [u, v]
  {
    SplitJoin([u, v], sep);
    assert Join([u, v], sep) == u + sep + Join([v], sep);
  }

  /** Splitting on a border-free separator gives two pieces exactly when the separator occurs once. */
  lemma SplitTwoIff(s: string, sep: string)
    requires sep != [] && BorderFree(sep)
    ensures |Split(s, sep)| == 2 <==> OneOccurrence(s, sep)
  {
    var parts := Split(s, sep);
    if |parts| == 2 {
      JoinSplit(s, sep);
      assert Join(parts, sep) == parts[0] + sep + parts[1];
      assert s == parts[0] + sep + parts[1];
    }
    if OneOccurrence(s, sep) {
      var u, v :| s == u + sep + v && !Contains(u, sep) && !Contains(v, sep);
      SplitInTwo(u, sep, v);
    }
  }

  /** A text holding a border-free separator twice does not split into two pieces. */
  lemma TwoOccurrencesSplitFurther(u: string, sep: string, v: string, w: string)
    requires sep != [] && BorderFree(sep)
    ensures |Split(u + sep + v + sep + w, sep)| != 2
  {
    var s := u + sep + v + sep + w;
    var parts := Split(s, sep);
    assert OccursAt(s, sep, |u|) by { assert s[|u|..|u| + |sep|] == sep; }
    var j := |u| + |sep| + |v|;
    assert OccursAt(s, sep, j) by { assert s[j..j + |sep|] == sep; }
    if |parts| == 2 {
      JoinSplit(s, sep);
      assert Join(parts, sep) == parts[0] + sep + parts[1];
      SingleOccurrence(parts[0], sep, parts[1], |u|);
      SingleOccurrence(parts[0], sep, parts[1], j);
    }
  }

  /** Splitting a join of sep-free pieces on a border-free separator gives the pieces back. */
  lemma {:induction false} SplitJoin(parts: seq<string>, sep: string)
    requires sep != [] && BorderFree(sep) && |parts| >= 1
    requires forall k :: 0 <= k < |parts| ==> !Contains(parts[k], sep)
    ensures Split(Join(parts, sep), sep) == parts
    decreases |parts|
  {
    if |parts| > 1 {
      var x, rest := parts[0], Join(parts[1..], sep);
      assert Join(parts, sep) == x + sep + rest;
      SplitAfterPart(x, sep, rest);
      SplitJoin(parts[1..], sep);
      assert parts == [x] + parts[1..];
    }
  }

  /** Splitting `x + sep + z`, with `x` free of a border-free `sep`, cuts off `x` first. */
  lemma SplitAfterPart(x: string, sep: string, z: string)
    requires sep != [] && BorderFree(sep) && !Contains(x, sep)
    ensures Split(x + sep + z, sep) == [x] + Split(z, sep)
  {
    var s := x + sep + z;
    FindAfterPart(x, sep, z);
    assert s[..|x|] == x && s[|x| + |sep|..] == z;
  }

  /** A text with no occurrence of `pat` is left as it is. */
  lemma ReplaceAbsent(s: string, pat: string, repl: string)
    requires pat != [] && !Contains(s, pat)
    ensures Replace(s, pat, repl) == s
  {
  }


  // ---------------------------------------------------------------------------
  // str(int)

  predicate IsDigit(c: char) {
    '0' <= c <= '9'
  }

  function DigitChar(d: nat): (c: char)
    requires d < 10
    ensures IsDigit(c) && c as int - '0' as int == d
  {
    (('0' as int) + d) as char
  }

  /** The decimal text of a natural number, as Python's `str` writes it: no sign, no leading zeros. */
  function NatToDecimal(n: nat): (r: string)
    ensures |r| >= 1 && forall k :: 0 <= k < |r| ==> IsDigit(r[k])
    ensures |r| > 1 ==> r[0] != '0'
    decreases n
  {
    if n < 10 then [DigitChar(n)] else NatToDecimal(n / 10) + [DigitChar(n % 10)]
  }

  /** The value of a string of decimal digits: the reading partner of NatToDecimal. */
  function DecimalValue(s: string): nat
    requires forall k :: 0 <= k < |s| ==> IsDigit(s[k])
    decreases |s|
  {
    if s == [] then 0
    else
      assert IsDigit(s[|s| - 1]);
      DecimalValue(s[..|s| - 1]) * 10 + (s[|s| - 1] as int - '0' as int)
  }

  /** Reading back the decimal text of `n` gives `n`. */
  lemma {:induction false} DecimalRoundTrip(n: nat)
    ensures DecimalValue(NatToDecimal(n)) == n
    decreases n
  {
    if n >= 10 {
      DecimalRoundTrip(n / 10);
      var r := NatToDecimal(n);
      assert r[..|r| - 1] == NatToDecimal(n / 10);
    }
  }

  /** Distinct numbers have distinct decimal texts. */
  lemma NatToDecimalInjective(m: nat, n: nat)
    requires m != n
    ensures NatToDecimal(m) != NatToDecimal(n)
  {
    DecimalRoundTrip(m);
    DecimalRoundTrip(n);
  }

  /** Python's `str(i)` for an int. */
  function IntToString(i: int): (r: string)
    ensures r != [] && forall c :: c in r ==> IsDigit(c) || c == '-'
  {
    if i < 0 then "-" + NatToDecimal(-i) else NatToDecimal(i)
  }

  /** `str(i)` reads back as `i`: digits for a non-negative value, a minus sign and the digits of -i otherwise. */
  lemma IntToStringValue(i: int)
    ensures i >= 0 ==> DecimalValue(IntToString(i)) == i
    ensures i < 0 ==> IntToString(i)[0] == '-' && IntToString(i)[1..] == NatToDecimal(-i)
                      && DecimalValue(NatToDecimal(-i)) == -i
  {
    if i >= 0 {
      DecimalRoundTrip(i);
    } else {
      DecimalRoundTrip(-i);
      assert ("-" + NatToDecimal(-i))[1..] == NatToDecimal(-i);
    }
  }
}
