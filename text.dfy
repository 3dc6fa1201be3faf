/**
 * The Python string operations the service uses on configuration values and
 * request headers: `str.strip()`, `str.split(sep)` and `str.split(sep, 1)`.
 */
module Text {
  import opened Chars

  /** Every character of `s` is whitespace. */
  predicate AllSpace(s: string) {
    forall i :: 0 <= i < |s| ==> IsSpace(s[i])
  }

  /** `s` has no whitespace at either end. */
  predicate IsStripped(s: string) {
    s == [] || (!IsSpace(s[0]) && !IsSpace(s[|s| - 1]))
  }

  /** `str.lstrip()`. */
  function TrimStart(s: string): string {
    if s != [] && IsSpace(s[0]) then TrimStart(s[1..]) else s
  }

  /** `str.lstrip()` drops the leading whitespace, and only that. */
  lemma {:induction false} TrimStartSpec(s: string)
    ensures |TrimStart(s)| <= |s| && TrimStart(s) == s[|s| - |TrimStart(s)|..]
    ensures AllSpace(s[..|s| - |TrimStart(s)|])
    ensures TrimStart(s) == [] || !IsSpace(TrimStart(s)[0])
  {
    if s != [] && IsSpace(s[0]) {
      var tail := s[1..];
      var r := TrimStart(tail);
      TrimStartSpec(tail);
      var n := |s| - |r|;
      assert r == tail[n - 1..] == s[n..];
      var cut, tailCut := s[..n], tail[..n - 1];
      assert AllSpace(tailCut);
      forall i | 0 <= i < n ensures IsSpace(cut[i]) {
        if i == 0 {
          assert cut[0] == s[0];
        } else {
          assert cut[i] == tailCut[i - 1];
        }
      }
    }
  }

  /** `str.rstrip()`. */
  function TrimEnd(s: string): string {
    if s != [] && IsSpace(s[|s| - 1]) then TrimEnd(s[..|s| - 1]) else s
  }

  /** `str.rstrip()` drops the trailing whitespace, and only that. */
  lemma {:induction false} TrimEndSpec(s: string)
    ensures |TrimEnd(s)| <= |s| && TrimEnd(s) == s[..|TrimEnd(s)|]
    ensures AllSpace(s[|TrimEnd(s)|..])
    ensures TrimEnd(s) == [] || !IsSpace(TrimEnd(s)[|TrimEnd(s)| - 1])
  {
    if s != [] && IsSpace(s[|s| - 1]) {
      var init := s[..|s| - 1];
      var r := TrimEnd(init);
      TrimEndSpec(init);
      var n := |r|;
      assert r == init[..n] == s[..n];
      var cut, initCut := s[n..], init[n..];
      assert AllSpace(initCut);
      forall i | 0 <= i < |cut| ensures IsSpace(cut[i]) {
        if i == |cut| - 1 {
          assert cut[i] == s[|s| - 1];
        } else {
          assert cut[i] == initCut[i];
        }
      }
    }
  }

  /** `str.strip()`: drops the whitespace at both ends; the result has none at its ends. */
  function Strip(s: string): (r: string)
    ensures IsStripped(r)
  {
    TrimStartSpec(s);
    TrimEndSpec(TrimStart(s));
    TrimEnd(TrimStart(s))
  }

  /**
   * What `str.strip()` cuts off is whitespace and nothing else: the result is the
   * piece of `s` between a run of leading and a run of trailing whitespace.
   */
  lemma StripInfix(s: string)
    ensures exists i :: (0 <= i <= |s| - |Strip(s)| && Strip(s) == s[i..i + |Strip(s)|]
      && AllSpace(s[..i]) && AllSpace(s[i + |Strip(s)|..]))
  {
    var t := TrimStart(s);
    var r := TrimEnd(t);
    TrimStartSpec(s);
    TrimEndSpec(t);
    var i := |s| - |t|;
    assert s[i..] == t && s[i..i + |r|] == r;
    assert s[..i] == s[..|s| - |t|];
    assert s[i + |r|..] == t[|r|..];
  }

  /** Stripping only removes characters. */
  lemma StripChars(s: string)
    ensures forall c :: c in Strip(s) ==> c in s
  {
    StripInfix(s);
  }

  /** Number of occurrences of `c` in `s` (Python's `s.count(c)`). */
  function Count(s: string, c: char): nat {
    if s == [] then 0 else (if s[0] == c then 1 else 0) + Count(s[1..], c)
  }

  /** `sep.join(parts)`. */
  function Join(parts: seq<string>, sep: char): string {
    if parts == [] then ""
    else if |parts| == 1 then parts[0]
    else parts[0] + [sep] + Join(parts[1..], sep)
  }

  /**
   * `s.split(sep)` with an explicit one-character separator: one piece more than
   * there are separators, no piece holds the separator, and joining the pieces
   * gives back `s`.
   */
  function Split(s: string, sep: char): (parts: seq<string>)
    ensures |parts| == Count(s, sep) + 1
    ensures forall k :: 0 <= k < |parts| ==> sep !in parts[k]
    ensures Join(parts, sep) == s
  {
    if s == [] then [""]
    else
      var rest := Split(s[1..], sep);
      if s[0] == sep then
        assert s == [sep] + s[1..];
        [""] + rest
      else
        var parts := [[s[0]] + rest[0]] + rest[1..];
        assert s == [s[0]] + s[1..];
        assert parts[1..] == rest[1..];
        assert Join(parts, sep) == s by {
          if |rest| > 1 {
            assert rest == [rest[0]] + rest[1..];
            assert Join(rest, sep) == rest[0] + [sep] + Join(rest[1..], sep);
          }
        }
        parts
  }

  /**
   * `s.split(sep, 1)`: the text before the first separator and, when there is a
   * separator, everything after it.
   */
  function SplitOnce(s: string, sep: char): (parts: seq<string>)
    ensures 1 <= |parts| <= 2
    ensures |parts| == 2 <==> sep in s
    ensures sep !in parts[0]
    ensures Join(parts, sep) == s
  {
    if s == [] then [""]
    else if s[0] == sep then
      assert s == [sep] + s[1..];
      ["", s[1..]]
    else
      var rest := SplitOnce(s[1..], sep);
      assert s == [s[0]] + s[1..];
      [[s[0]] + rest[0]] + rest[1..]
  }

  /**
   * When `s` starts with a word free of `sep` followed by `sep`, splitting once
   * yields that word and the text after the separator.
   */
  lemma SplitOnceAfterWord(s: string, word: string, sep: char)
    requires sep !in word && word + [sep] <= s
    ensures SplitOnce(s, sep) == [word, s[|word| + 1..]]
  {
    var parts := SplitOnce(s, sep);
    assert s[|word|] == sep;
    assert |parts| == 2;
    assert Join(parts[1..], sep) == parts[1];
    assert s == parts[0] + [sep] + parts[1];
    // Both the word and the first piece are separator-free runs that the first separator ends.
    assert forall k :: 0 <= k < |word| ==> s[k] == word[k] != sep;
    assert forall k :: 0 <= k < |parts[0]| ==> s[k] == parts[0][k] != sep;
    assert s[|parts[0]|] == sep;
    assert |parts[0]| == |word|;
    assert parts[0] == s[..|word|] == word;
    assert parts[1] == s[|word| + 1..];
  }

  /** Stripping removes everything exactly when the string is all whitespace. */
  lemma StripEmpty(s: string)
    ensures Strip(s) == "" <==> AllSpace(s)
  {
    var t := TrimStart(s);
    TrimStartSpec(s);
    TrimEndSpec(t);
    var n := |s| - |t|;
    if TrimEnd(t) == [] {
      assert t[0..] == t;
      assert s == s[..n];
    }
  }

  /** Every character of a join is the separator or a character of one of the parts, and conversely. */
  lemma {:induction false} JoinChars(parts: seq<string>, sep: char)
    ensures forall c :: c in Join(parts, sep) ==> c == sep || exists k :: 0 <= k < |parts| && c in parts[k]
    ensures forall k, c :: 0 <= k < |parts| && c in parts[k] ==> c in Join(parts, sep)
  {
    if |parts| > 1 {
      JoinChars(parts[1..], sep);
      var j := Join(parts, sep);
      assert j == parts[0] + [sep] + Join(parts[1..], sep);
      forall c | c in j ensures c == sep || exists k :: 0 <= k < |parts| && c in parts[k] {
        if c in parts[0] {
        } else if c != sep {
          assert c in Join(parts[1..], sep);
          var k :| 0 <= k < |parts[1..]| && c in parts[1..][k];
          assert c in parts[k + 1];
        }
      }
      forall k, c | 0 <= k < |parts| && c in parts[k] ensures c in j {
        if k > 0 {
          assert parts[k] == parts[1..][k - 1];
        }
      }
    }
  }
}
