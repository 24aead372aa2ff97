/**
 * The string helpers the handlers rely on from Go's `strings` package:
 * `strings.Split` and `strings.Join` with a one-character separator,
 * `strings.Count`, and lower-casing (restricted here to ASCII letters).
 */
module Text {

  /** Number of occurrences of `c` in `s` (`strings.Count` for a one-character needle). */
  function Count(s: string, c: char): nat {
    if s == [] then 0 else (if s[0] == c then 1 else 0) + Count(s[1..], c)
  }

  lemma {:induction false} CountConcat(a: string, b: string, c: char)
    ensures Count(a + b, c) == Count(a, c) + Count(b, c)
  {
    if a != [] {
      assert (a + b)[1..] == a[1..] + b;
      CountConcat(a[1..], b, c);
    } else {
      assert a + b == b;
    }
  }

  lemma {:induction false} CountZero(s: string, c: char)
    ensures Count(s, c) == 0 <==> c !in s
  {
    if s != [] {
      CountZero(s[1..], c);
      assert s == [s[0]] + s[1..];
    }
  }

  /**
   * `strings.Split(s, string(sep))`: the maximal pieces of `s` between
   * occurrences of `sep`. There is always one more piece than there are
   * separators, and no piece contains the separator.
   */
  function Split(s: string, sep: char): (parts: seq<string>)
    ensures |parts| == Count(s, sep) + 1
    ensures forall i :: 0 <= i < |parts| ==> sep !in parts[i]
  {
    if s == [] then [""]
    else
      var rest := Split(s[1..], sep);
      if s[0] == sep then [""] + rest
      else [[s[0]] + rest[0]] + rest[1..]
  }

  /** `strings.Join(parts, string(sep))`. */
  function Join(parts: seq<string>, sep: char): string {
    if |parts| == 0 then ""
    else if |parts| == 1 then parts[0]
    else parts[0] + [sep] + Join(parts[1..], sep)
  }

  /** Joining the pieces of a split gives back the original string. */
  lemma {:induction false} JoinSplit(s: string, sep: char)
    ensures Join(Split(s, sep), sep) == s
  {
    if s != [] {
      var rest := Split(s[1..], sep);
      JoinSplit(s[1..], sep);
      if s[0] == sep {
        assert Split(s, sep) == [""] + rest;
        assert s == [sep] + s[1..];
      } else {
        var parts := Split(s, sep);
        assert parts == [[s[0]] + rest[0]] + rest[1..];
        if |rest| == 1 {
          assert s == [s[0]] + rest[0];
        } else {
          assert parts[1..] == rest[1..];
          assert Join(rest, sep) == rest[0] + [sep] + Join(rest[1..], sep);
          assert s == [s[0]] + s[1..];
        }
      }
    }
  }

  /** Splitting a string that starts with a separator-free prefix `a` glues `a` onto the first piece. */
  lemma {:induction false} SplitFreePrefix(a: string, t: string, sep: char)
    requires sep !in a
    ensures Split(a + t, sep) == [a + Split(t, sep)[0]] + Split(t, sep)[1..]
  {
    if a != [] {
      assert (a + t)[1..] == a[1..] + t;
      SplitFreePrefix(a[1..], t, sep);
      var parts := Split(t, sep);
      var rest := Split(a[1..] + t, sep);
      assert rest[0] == a[1..] + parts[0] && rest[1..] == parts[1..];
      assert [a[0]] + rest[0] == a + parts[0];
    } else {
      var parts := Split(t, sep);
      assert a + t == t;
      assert parts == [parts[0]] + parts[1..];
      assert a + parts[0] == parts[0];
    }
  }

  /** Splitting at a leading separator yields an empty first piece. */
  lemma SplitLeadingSeparator(t: string, sep: char)
    ensures Split([sep] + t, sep) == [""] + Split(t, sep)
  {
    assert ([sep] + t)[1..] == t;
  }

  /** Splitting a join of separator-free pieces gives the pieces back. */
  lemma {:induction false} SplitJoin(parts: seq<string>, sep: char)
    requires |parts| >= 1
    requires forall i :: 0 <= i < |parts| ==> sep !in parts[i]
    ensures Split(Join(parts, sep), sep) == parts
  {
    if |parts| == 1 {
      SplitFreePrefix(parts[0], "", sep);
      assert parts[0] + "" == parts[0];
    } else {
      var tail := Join(parts[1..], sep);
      SplitJoin(parts[1..], sep);
      assert Join(parts, sep) == parts[0] + ([sep] + tail);
      SplitFreePrefix(parts[0], [sep] + tail, sep);
      SplitLeadingSeparator(tail, sep);
      var rest := Split([sep] + tail, sep);
      assert rest == [""] + parts[1..];
      assert rest[0] == "" && rest[1..] == parts[1..];
      assert parts[0] + rest[0] == parts[0];
      assert parts == [parts[0]] + parts[1..];
    }
  }

  /** The last piece of a split is whatever follows the last separator. */
  lemma {:induction false} SplitLastPiece(x: string, t: string, sep: char)
    requires sep !in t
    ensures Split(x + [sep] + t, sep)[Count(x + [sep] + t, sep)] == t
  {
    if x == [] {
      assert x + [sep] + t == [sep] + t;
      SplitLeadingSeparator(t, sep);
      SplitFreePrefix(t, "", sep);
      assert t + "" == t;
      CountZero(t, sep);
      CountConcat([sep], t, sep);
    } else {
      var s := x + [sep] + t;
      assert s[1..] == x[1..] + [sep] + t;
      SplitLastPiece(x[1..], t, sep);
      CountConcat(x[1..], [sep] + t, sep);
      CountConcat([sep], t, sep);
      assert x[1..] + [sep] + t == x[1..] + ([sep] + t);
    }
  }

  /** `unicode.ToLower` restricted to the ASCII letters. */
  function LowerChar(c: char): char {
    if 'A' <= c <= 'Z' then (c as int + 32) as char else c
  }

  /** `strings.ToLower`, approximated by ASCII lower-casing. */
  function AsciiLower(s: string): (r: string)
    ensures |r| == |s|
    ensures forall i :: 0 <= i < |r| ==> !('A' <= r[i] <= 'Z')
    ensures forall i :: 0 <= i < |s| && !('A' <= s[i] <= 'Z') ==> r[i] == s[i]
  {
    seq(|s|, i requires 0 <= i < |s| => LowerChar(s[i]))
  }

  /** Two characters that are equal, or are the upper- and lower-case forms of one ASCII letter. */
  predicate SameIgnoringAsciiCase(a: char, b: char) {
    a == b
    || ('A' <= a <= 'Z' && b as int == a as int + 32)
    || ('A' <= b <= 'Z' && a as int == b as int + 32)
  }

  /** Two strings lower-case to the same text exactly when they differ only in the case of ASCII letters. */
  lemma AsciiLowerEqual(s: string, t: string)
    ensures AsciiLower(s) == AsciiLower(t) <==>
              |s| == |t| && forall i :: 0 <= i < |s| ==> SameIgnoringAsciiCase(s[i], t[i])
  {
    if |s| == |t| && forall i :: 0 <= i < |s| ==> SameIgnoringAsciiCase(s[i], t[i]) {
      forall i | 0 <= i < |s|
        ensures AsciiLower(s)[i] == AsciiLower(t)[i]
      {
        assert AsciiLower(s)[i] == LowerChar(s[i]) && AsciiLower(t)[i] == LowerChar(t[i]);
      }
    }
    if AsciiLower(s) == AsciiLower(t) {
      forall i | 0 <= i < |s|
        ensures SameIgnoringAsciiCase(s[i], t[i])
      {
        assert LowerChar(s[i]) == AsciiLower(s)[i] == AsciiLower(t)[i] == LowerChar(t[i]);
      }
    }
  }

  /** Lower-casing is idempotent, so a label that is already lower-case is its own lookup key. */
  lemma AsciiLowerIdempotent(s: string)
    ensures AsciiLower(AsciiLower(s)) == AsciiLower(s)
  {
  }
}
