/** Character-level helpers: ASCII lower-casing, the alphabet predicate, and
    Python's `str.split()` / `str.split(sep)`. */
module Text {

  /** `str.lower()` on one character (ASCII letters only). */
  function LowerChar(c: char): (d: char)
    ensures 'A' <= c <= 'Z' ==> d as int == c as int + 32
    ensures !('A' <= c <= 'Z') ==> d == c
  {
    if 'A' <= c <= 'Z' then (c as int - 'A' as int + 'a' as int) as char else c
  }

  /** `str.lower()`: no capital letter is left, and every character that is
      not a capital letter is kept. */
  function Lower(s: string): (r: string)
    ensures |r| == |s|
    ensures forall i :: 0 <= i < |r| ==> !('A' <= r[i] <= 'Z')
    ensures forall i :: 0 <= i < |s| && !('A' <= s[i] <= 'Z') ==> r[i] == s[i]
    ensures forall i :: 0 <= i < |s| ==> r[i] == LowerChar(s[i])
  {
    seq(|s|, i requires 0 <= i < |s| => LowerChar(s[i]))
  }

  /** `set(s)` */
  function Chars(s: string): set<char> {
    set c | c in s
  }

  /** `contains_only(str, available)` as evidently intended: every character
      of `s` occurs in `available`. */
  predicate ContainsOnly(s: string, available: string) {
    forall i :: 0 <= i < |s| ==> s[i] in available
  }

  /** The source's counting test with the comparison it evidently meant: the
      union of both character sets is no larger than the set of `available`. */
  predicate ContainsOnlyCounting(s: string, available: string) {
    |Chars(s) + Chars(available)| <= |Chars(available)|
  }

  /** The source's counting test as written: it compares the union with the
      set of `s` instead. */
  predicate ContainsOnlyAsWritten(s: string, available: string) {
    |Chars(s) + Chars(available)| <= |Chars(s)|
  }

  /** The cardinality test holds exactly when `x` is a subset of `y`. */
  lemma UnionNoLarger(x: set<char>, y: set<char>)
    ensures |x + y| <= |y| <==> x <= y
  {
    if x <= y {
      assert x + y == y;
    } else {
      var c :| c in x && c !in y;
      assert y + {c} <= x + y;
      assert |y + {c}| == |y| + 1;
      SubsetCard(y + {c}, x + y);
    }
  }

  lemma {:induction false} SubsetCard(a: set<char>, b: set<char>)
    requires a <= b
    ensures |a| <= |b|
    decreases a
  {
    if a != {} {
      var c :| c in a;
      SubsetCard(a - {c}, b - {c});
    }
  }

  /** The corrected counting test is the alphabet predicate. */
  lemma ContainsOnlyCountingMeaning(s: string, available: string)
    ensures ContainsOnlyCounting(s, available) <==> ContainsOnly(s, available)
  {
    UnionNoLarger(Chars(s), Chars(available));
    CharsSubset(s, available);
  }

  lemma CharsSubset(s: string, t: string)
    ensures Chars(s) <= Chars(t) <==> forall i :: 0 <= i < |s| ==> s[i] in t
  {
    if forall i :: 0 <= i < |s| ==> s[i] in t {
      forall c | c in Chars(s) ensures c in Chars(t) {
        var i :| 0 <= i < |s| && s[i] == c;
      }
    }
    if Chars(s) <= Chars(t) {
      forall i | 0 <= i < |s| ensures s[i] in t {
        assert s[i] in Chars(s);
      }
    }
  }

  /** As written, the test asks the opposite: every character of `available`
      occurs in `s`. */
  lemma ContainsOnlyAsWrittenMeaning(s: string, available: string)
    ensures ContainsOnlyAsWritten(s, available) <==>
            forall i :: 0 <= i < |available| ==> available[i] in s
  {
    UnionNoLarger(Chars(available), Chars(s));
    CharsSubset(available, s);
    assert Chars(s) + Chars(available) == Chars(available) + Chars(s);
  }

  /** Python's `str.isspace()` for one character. */
  predicate IsSpace(c: char) {
    var n := c as int;
    || n == 0x20 || 0x09 <= n <= 0x0d || 0x1c <= n <= 0x1f || n == 0x85 || n == 0xa0
    || n == 0x1680 || 0x2000 <= n <= 0x200a || n == 0x2028 || n == 0x2029
    || n == 0x202f || n == 0x205f || n == 0x3000
  }

  predicate NoSpace(s: string) {
    forall i :: 0 <= i < |s| ==> !IsSpace(s[i])
  }

  /** The length of the run of non-space characters that starts `s`. */
  function WordLength(s: string): (k: nat)
    ensures k <= |s|
    ensures NoSpace(s[..k])
    ensures k < |s| ==> IsSpace(s[k])
  {
    if |s| == 0 || IsSpace(s[0]) then 0
    else
      var k := 1 + WordLength(s[1..]);
      assert s[..k] == [s[0]] + s[1..][..k - 1];
      k
  }

  /** `str.split()`: the maximal runs of non-space characters, in order. */
  function Split(s: string): (words: seq<string>)
    ensures |s| == 0 ==> words == []
    ensures forall j :: 0 <= j < |words| ==> |words[j]| > 0 && NoSpace(words[j])
    decreases |s|
  {
    if |s| == 0 then []
    else if IsSpace(s[0]) then Split(s[1..])
    else
      var k := WordLength(s);
      [s[..k]] + Split(s[k..])
  }

  /** The words joined by single spaces. */
  function Unwords(words: seq<string>): string {
    if |words| == 0 then ""
    else if |words| == 1 then words[0]
    else words[0] + " " + Unwords(words[1..])
  }

  /** Splitting words joined by spaces gives the words back. */
  lemma {:induction false} SplitUnwords(words: seq<string>)
    requires forall j :: 0 <= j < |words| ==> |words[j]| > 0 && NoSpace(words[j])
    ensures Split(Unwords(words)) == words
    decreases |words|
  {
    if |words| == 1 {
      SplitWord(words[0], "");
      assert words[0] + "" == words[0];
    } else if |words| > 1 {
      SplitUnwords(words[1..]);
      SplitWord(words[0], " " + Unwords(words[1..]));
      assert words[0] + " " + Unwords(words[1..]) == words[0] + (" " + Unwords(words[1..]));
      var rest := " " + Unwords(words[1..]);
      assert rest[1..] == Unwords(words[1..]);
    }
  }

  /** A word followed by text that is empty or starts with a space splits off first. */
  lemma {:induction false} SplitWord(w: string, rest: string)
    requires |w| > 0 && NoSpace(w)
    requires |rest| == 0 || IsSpace(rest[0])
    ensures Split(w + rest) == [w] + Split(rest)
  {
    var s := w + rest;
    WordAt(w, rest);
    assert s[..|w|] == w && s[|w|..] == rest;
  }

  lemma {:induction false} WordAt(w: string, rest: string)
    requires NoSpace(w)
    requires |rest| == 0 || IsSpace(rest[0])
    ensures WordLength(w + rest) == |w|
    decreases |w|
  {
    if |w| > 0 {
      WordAt(w[1..], rest);
      assert (w + rest)[1..] == w[1..] + rest;
    }
  }

  /** A single non-empty word without whitespace splits to itself. */
  lemma SplitWhole(w: string)
    requires |w| > 0 && NoSpace(w)
    ensures Split(w) == [w]
  {
    SplitWord(w, "");
    assert w + "" == w;
  }

  /** A whitespace character cuts the text in two, and the words of the whole
      are the words of each side in order. With `SplitWhole` this determines
      `str.split()` on every input. */
  lemma {:induction false} SplitAtSpace(a: string, c: char, b: string)
    requires IsSpace(c)
    ensures Split(a + [c] + b) == Split(a) + Split(b)
    decreases |a|
  {
    var s := a + [c] + b;
    if |a| == 0 {
      assert s[1..] == b;
    } else if IsSpace(a[0]) {
      SplitAtSpace(a[1..], c, b);
      assert s[1..] == a[1..] + [c] + b;
    } else {
      var k := WordLength(a);
      WordLengthExtend(a, [c] + b);
      assert s == a + ([c] + b);
      assert s[..k] == a[..k];
      assert s[k..] == a[k..] + [c] + b;
      SplitAtSpace(a[k..], c, b);
    }
  }

  /** Text after the end of the first word does not move it, provided it
      starts with whitespace. */
  lemma {:induction false} WordLengthExtend(a: string, rest: string)
    requires |rest| == 0 || IsSpace(rest[0])
    ensures WordLength(a + rest) == WordLength(a)
    decreases |a|
  {
    if |a| > 0 && !IsSpace(a[0]) {
      WordLengthExtend(a[1..], rest);
      assert (a + rest)[1..] == a[1..] + rest;
    } else if |a| == 0 {
      assert a + rest == rest;
    }
  }

  /** `str.split(sep)`: the pieces between occurrences of `sep`; there is
      always one more piece than there are separators. */
  function SplitOn(s: string, sep: char): (parts: seq<string>)
    ensures |parts| >= 1
    ensures forall j :: 0 <= j < |parts| ==> sep !in parts[j]
    decreases |s|
  {
    if |s| == 0 then [""]
    else
      var rest := SplitOn(s[1..], sep);
      if s[0] == sep then [""] + rest
      else [[s[0]] + rest[0]] + rest[1..]
  }

  /** `sep.join(parts)` */
  function JoinOn(parts: seq<string>, sep: char): string
    requires |parts| >= 1
  {
    if |parts| == 1 then parts[0] else parts[0] + [sep] + JoinOn(parts[1..], sep)
  }

  /** Joining the pieces with the separator restores the text. */
  lemma {:induction false} JoinSplitOn(s: string, sep: char)
    ensures JoinOn(SplitOn(s, sep), sep) == s
    decreases |s|
  {
    if |s| > 0 {
      var rest := SplitOn(s[1..], sep);
      JoinSplitOn(s[1..], sep);
      if s[0] == sep {
        assert SplitOn(s, sep)[1..] == rest;
      } else {
        var parts := SplitOn(s, sep);
        if |rest| == 1 {
          assert parts == [[s[0]] + rest[0]];
        } else {
          assert parts[1..] == rest[1..];
          assert JoinOn(rest, sep) == rest[0] + [sep] + JoinOn(rest[1..], sep);
        }
      }
    }
  }

  /** Splitting pieces joined with the separator gives the pieces back. */
  lemma {:induction false} SplitOnJoin(parts: seq<string>, sep: char)
    requires |parts| >= 1
    requires forall j :: 0 <= j < |parts| ==> sep !in parts[j]
    ensures SplitOn(JoinOn(parts, sep), sep) == parts
    decreases |parts|
  {
    if |parts| == 1 {
      SplitOnPiece(parts[0], [], sep);
      assert parts[0] + [] == parts[0];
      assert parts == [parts[0]];
    } else {
      SplitOnJoin(parts[1..], sep);
      var tail := JoinOn(parts[1..], sep);
      assert JoinOn(parts, sep) == parts[0] + ([sep] + tail);
      SplitOnPiece(parts[0], [sep] + tail, sep);
      assert ([sep] + tail)[1..] == tail;
      assert parts == [parts[0]] + parts[1..];
    }
  }

  /** A piece free of `sep`, followed by nothing or by `sep`, is the first part. */
  lemma {:induction false} SplitOnPiece(p: string, rest: string, sep: char)
    requires sep !in p
    requires |rest| == 0 || rest[0] == sep
    ensures |rest| == 0 ==> SplitOn(p + rest, sep) == [p]
    ensures |rest| > 0 ==> SplitOn(p + rest, sep) == [p] + SplitOn(rest[1..], sep)
    decreases |p|
  {
    if |p| == 0 {
      assert p + rest == rest;
    } else {
      SplitOnPiece(p[1..], rest, sep);
      assert (p + rest)[1..] == p[1..] + rest;
      assert [p[0]] + p[1..] == p;
    }
  }
}
