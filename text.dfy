/** The handful of Python string operations the two scripts use, on
    `string` (= `seq<char>`): `str.strip('\n')`, `sep.join(parts)`,
    `str.split(sep)` and `re.sub(pattern, repl, s)` for a pattern that matches
    one character of a class. */
module Text {
  import opened Sequences

  const Newline: char := '\n'

  /** `\d`: a decimal digit. */
  predicate IsDigit(c: char)
  {
    '0' <= c <= '9'
  }

  /** `[a-zA-Z ]`: an ASCII letter or a space. */
  predicate IsLetterOrSpace(c: char)
  {
    'a' <= c <= 'z' || 'A' <= c <= 'Z' || c == ' '
  }

  /** `[^a-zA-Z ]`: anything else. */
  predicate IsSpecial(c: char)
  {
    !IsLetterOrSpace(c)
  }

  // ---------------------------------------------------------------- strip

  function StripLeading(s: string): (r: string)
  {
    if |s| > 0 && s[0] == Newline then StripLeading(s[1..]) else s
  }

  function StripTrailing(s: string): (r: string)
  {
    if |s| > 0 && s[|s| - 1] == Newline then StripTrailing(s[..|s| - 1]) else s
  }

  /** `s.strip('\n')`: every leading and every trailing newline removed. */
  function StripNewlines(s: string): (r: string)
  {
    StripTrailing(StripLeading(s))
  }

  /** `StripLeading` drops a run of newlines from the front and stops at the
      first other character. */
  lemma {:induction false} StripLeadingSpec(s: string)
    ensures exists i :: 0 <= i <= |s| && StripLeading(s) == s[i..] &&
                        (forall k :: 0 <= k < i ==> s[k] == Newline)
    ensures StripLeading(s) == [] || StripLeading(s)[0] != Newline
  {
    if |s| > 0 && s[0] == Newline {
      StripLeadingSpec(s[1..]);
      var i :| 0 <= i <= |s[1..]| && StripLeading(s[1..]) == s[1..][i..] &&
               (forall k :: 0 <= k < i ==> s[1..][k] == Newline);
      assert s[1..][i..] == s[i + 1..];
      assert forall k :: 0 <= k < i + 1 ==> s[k] == Newline by {
        forall k | 0 <= k < i + 1 ensures s[k] == Newline {
          if k > 0 { assert s[k] == s[1..][k - 1]; }
        }
      }
    } else {
      assert s == s[0..];
    }
  }

  /** `StripTrailing` drops a run of newlines from the back and stops at the
      last other character. */
  lemma {:induction false} StripTrailingSpec(s: string)
    ensures exists j :: 0 <= j <= |s| && StripTrailing(s) == s[..j] &&
                        (forall k :: j <= k < |s| ==> s[k] == Newline)
    ensures StripTrailing(s) == [] || StripTrailing(s)[|StripTrailing(s)| - 1] != Newline
  {
    if |s| > 0 && s[|s| - 1] == Newline {
      var init := s[..|s| - 1];
      StripTrailingSpec(init);
      var j :| 0 <= j <= |init| && StripTrailing(init) == init[..j] &&
               (forall k :: j <= k < |init| ==> init[k] == Newline);
      assert init[..j] == s[..j];
    } else {
      assert s == s[..|s|];
    }
  }

  /** A line as `readlines` delivers it: a newline can only be its last character. */
  ghost predicate IsReadLine(line: string)
  {
    forall k :: 0 <= k < |line| - 1 ==> line[k] != Newline
  }

  /** On a line from `readlines`, `strip('\n')` removes exactly the line
      terminator, if there is one, and leaves no newline behind. */
  lemma StripReadLine(line: string)
    requires IsReadLine(line)
    ensures StripNewlines(line) ==
            if |line| > 0 && line[|line| - 1] == Newline then line[..|line| - 1] else line
    ensures Newline !in StripNewlines(line)
  {
    if |line| > 0 {
      if line[0] == Newline {
        // a leading newline can only be the whole line "\n"
        assert |line| == 1;
        assert StripLeading(line) == StripLeading(line[1..]) == "";
        assert line[..0] == "";
      } else {
        assert StripLeading(line) == line;
        if line[|line| - 1] == Newline {
          var init := line[..|line| - 1];
          assert init == [] || init[|init| - 1] != Newline;
          assert StripTrailing(init) == init;
        }
      }
    }
  }

  // ---------------------------------------------------------------- join

  /** `sep.join(parts)`. */
  function Join(sep: string, parts: seq<string>): (r: string)
  {
    if |parts| == 0 then ""
    else if |parts| == 1 then parts[0]
    else parts[0] + sep + Join(sep, parts[1..])
  }

  function TotalLength(parts: seq<string>): (r: nat)
  {
    if parts == [] then 0 else |parts[0]| + TotalLength(parts[1..])
  }

  /** The joined string holds every part once and one separator between each
      two neighbours. */
  lemma {:induction false} JoinLength(sep: string, parts: seq<string>)
    requires |parts| > 0
    ensures |Join(sep, parts)| == TotalLength(parts) + (|parts| - 1) * |sep|
  {
    if |parts| > 1 {
      JoinLength(sep, parts[1..]);
    }
  }

  /** A character found in no part and not in the separator is not in the join. */
  lemma {:induction false} JoinAvoids(sep: string, parts: seq<string>, c: char)
    requires c !in sep
    requires forall k :: 0 <= k < |parts| ==> c !in parts[k]
    ensures c !in Join(sep, parts)
  {
    if |parts| > 1 {
      JoinAvoids(sep, parts[1..], c);
    }
  }

  /** Joining a first part that has been extended at its front. */
  lemma JoinPrepend(sep: string, x: string, parts: seq<string>)
    requires |parts| > 0
    ensures Join(sep, [x + parts[0]] + parts[1..]) == x + Join(sep, parts)
  {
    var q := [x + parts[0]] + parts[1..];
    assert q[1..] == parts[1..];
  }

  // ---------------------------------------------------------------- split

  /** `sep` occurs in `s` starting at position `k`. */
  predicate OccursAt(s: string, sep: string, k: nat)
  {
    k + |sep| <= |s| && s[k..k + |sep|] == sep
  }

  /** Python's `sep in s`. */
  ghost predicate Contains(s: string, sep: string)
  {
    exists k: nat :: OccursAt(s, sep, k)
  }

  /** `s.split(sep)`: cut `s` at each leftmost, non-overlapping occurrence of
      `sep`. The text always yields at least one piece. Python rejects an
      empty separator. */
  function Split(s: string, sep: string): (pieces: seq<string>)
    requires |sep| > 0
    ensures |pieces| >= 1
    decreases |s|
  {
    if |s| < |sep| then [s]
    else if s[..|sep|] == sep then [""] + Split(s[|sep|..], sep)
    else
      var rest := Split(s[1..], sep);
      [[s[0]] + rest[0]] + rest[1..]
  }

  /** Joining the pieces with the separator gives back the text. */
  lemma {:induction false} JoinSplit(s: string, sep: string)
    requires |sep| > 0
    ensures Join(sep, Split(s, sep)) == s
    decreases |s|
  {
    if |s| < |sep| {
    } else if s[..|sep|] == sep {
      var rest := Split(s[|sep|..], sep);
      JoinSplit(s[|sep|..], sep);
      assert ([""] + rest)[1..] == rest;
      assert s == sep + s[|sep|..];
    } else {
      var rest := Split(s[1..], sep);
      JoinSplit(s[1..], sep);
      JoinPrepend(sep, [s[0]], rest);
      assert s == [s[0]] + s[1..];
    }
  }

  /** The first piece is a prefix of the text. */
  lemma {:induction false} FirstPieceIsPrefix(s: string, sep: string)
    requires |sep| > 0
    ensures |Split(s, sep)[0]| <= |s| && Split(s, sep)[0] == s[..|Split(s, sep)[0]|]
    decreases |s|
  {
    if |s| < |sep| {
    } else if s[..|sep|] == sep {
    } else {
      FirstPieceIsPrefix(s[1..], sep);
    }
  }

  /** No piece contains the separator. */
  lemma {:induction false} SplitPiecesAvoidSeparator(s: string, sep: string)
    requires |sep| > 0
    ensures forall p :: p in Split(s, sep) ==> !Contains(p, sep)
    decreases |s|
  {
    var pieces := Split(s, sep);
    if |s| < |sep| {
      forall k: nat ensures !OccursAt(s, sep, k) { }
    } else if s[..|sep|] == sep {
      SplitPiecesAvoidSeparator(s[|sep|..], sep);
      forall k: nat ensures !OccursAt("", sep, k) { }
    } else {
      var rest := Split(s[1..], sep);
      SplitPiecesAvoidSeparator(s[1..], sep);
      FirstPieceIsPrefix(s[1..], sep);
      var first := [s[0]] + rest[0];
      assert first == s[..|first|];
      assert rest[0] in rest;
      forall k: nat ensures !OccursAt(first, sep, k) {
        if k == 0 && |sep| <= |first| {
          assert first[..|sep|] == s[..|sep|];
        } else if k > 0 && k + |sep| <= |first| {
          assert first[k..k + |sep|] == rest[0][k - 1..k - 1 + |sep|];
          assert !OccursAt(rest[0], sep, k - 1);
        }
      }
      forall p | p in pieces ensures !Contains(p, sep) {
        if p != first {
          assert p in rest[1..];
        }
      }
    }
  }

  /** A text without the separator is not cut at all. */
  lemma {:induction false} SplitWithoutSeparator(s: string, sep: string)
    requires |sep| > 0
    requires !Contains(s, sep)
    ensures Split(s, sep) == [s]
    decreases |s|
  {
    assert !OccursAt(s, sep, 0);
    if |s| < |sep| {
    } else if s[..|sep|] != sep {
      forall k: nat ensures !OccursAt(s[1..], sep, k) {
        if k + |sep| <= |s[1..]| {
          assert s[1..][k..k + |sep|] == s[k + 1..k + 1 + |sep|];
          assert !OccursAt(s, sep, k + 1);
        }
      }
      SplitWithoutSeparator(s[1..], sep);
      assert s == [s[0]] + s[1..];
    }
  }

  /** A text without the separator's first character does not contain it. */
  lemma AvoidsSeparator(s: string, sep: string)
    requires |sep| > 0 && sep[0] !in s
    ensures !Contains(s, sep)
  {
    forall k: nat ensures !OccursAt(s, sep, k) {
      assert k + |sep| <= |s| ==> s[k..k + |sep|][0] == s[k];
    }
  }

  /** The text is cut into a single piece exactly when it does not contain the
      separator. */
  lemma SplitSinglePiece(s: string, sep: string)
    requires |sep| > 0
    ensures |Split(s, sep)| == 1 <==> !Contains(s, sep)
  {
    if !Contains(s, sep) {
      SplitWithoutSeparator(s, sep);
    } else {
      // a single piece would be the whole text, which contains the separator
      JoinSplit(s, sep);
      SplitPiecesAvoidSeparator(s, sep);
      assert Split(s, sep)[0] in Split(s, sep);
    }
  }

  /** Cutting a text made of `p`, the separator and `t`, where the separator
      starts nowhere inside `p`, cuts right after `p`. */
  lemma {:induction false} SplitAfter(p: string, sep: string, t: string)
    requires |sep| > 0
    requires forall k: nat :: k < |p| ==> !OccursAt(p + sep + t, sep, k)
    ensures Split(p + sep + t, sep) == [p] + Split(t, sep)
    decreases |p|
  {
    var s := p + sep + t;
    if p == [] {
      assert s == sep + t;
      assert s[..|sep|] == sep && s[|sep|..] == t;
    } else {
      assert !OccursAt(s, sep, 0);
      assert s[1..] == p[1..] + sep + t;
      forall k: nat | k < |p[1..]| ensures !OccursAt(s[1..], sep, k) {
        assert !OccursAt(s, sep, k + 1);
        assert s[1..][k..k + |sep|] == s[k + 1..k + 1 + |sep|];
      }
      SplitAfter(p[1..], sep, t);
      assert [p[0]] + p[1..] == p;
    }
  }

  /** A part that does not hold the separator's first character is cut right
      after its end. */
  lemma SplitAfterPiece(p: string, sep: string, t: string)
    requires |sep| > 0 && sep[0] !in p
    ensures Split(p + sep + t, sep) == [p] + Split(t, sep)
  {
    var s := p + sep + t;
    forall k: nat | k < |p| ensures !OccursAt(s, sep, k) {
      assert k + |sep| <= |s| ==> s[k..k + |sep|][0] == p[k];
    }
    SplitAfter(p, sep, t);
  }

  /** Splitting on a one-character separator undoes joining with it, as long
      as no part holds that character: the parts come back in order and none
      is dropped or merged. */
  lemma {:induction false} SplitJoin(parts: seq<string>, c: char)
    requires |parts| > 0
    requires forall k :: 0 <= k < |parts| ==> c !in parts[k]
    ensures Split(Join([c], parts), [c]) == parts
  {
    if |parts| == 1 {
      forall k: nat ensures !OccursAt(parts[0], [c], k) {
        if k + 1 <= |parts[0]| {
          assert parts[0][k..k + 1] == [parts[0][k]];
        }
      }
      SplitWithoutSeparator(parts[0], [c]);
    } else {
      SplitJoin(parts[1..], c);
      SplitAfterPiece(parts[0], [c], Join([c], parts[1..]));
      assert parts == [parts[0]] + parts[1..];
    }
  }

  // ---------------------------------------------------------------- re.sub

  /** The characters a pattern does not match. */
  function Outside(pattern: char -> bool): (r: char -> bool)
  {
    c => !pattern(c)
  }

  /** `re.sub(pattern, repl, s)` for a pattern that matches exactly one
      character, namely one satisfying `pattern`: each such character is replaced
      by `repl`, everything else is copied. */
  function Sub(pattern: char -> bool, repl: string, s: string): (r: string)
  {
    if s == [] then []
    else (if pattern(s[0]) then repl else [s[0]]) + Sub(pattern, repl, s[1..])
  }

  /** `re.sub` distributes over concatenation (single-character matches never
      straddle the seam). */
  lemma {:induction false} SubAppend(pattern: char -> bool, repl: string, a: string, b: string)
    ensures Sub(pattern, repl, a + b) == Sub(pattern, repl, a) + Sub(pattern, repl, b)
  {
    if a != [] {
      assert (a + b)[1..] == a[1..] + b;
      SubAppend(pattern, repl, a[1..], b);
    } else {
      assert a + b == b;
    }
  }

  /** Replacing by one character keeps the length: each position either held a
      matching character and now holds `c`, or is unchanged. */
  lemma {:induction false} SubByCharPointwise(pattern: char -> bool, c: char, s: string)
    ensures |Sub(pattern, [c], s)| == |s|
    ensures forall i :: 0 <= i < |s| ==> Sub(pattern, [c], s)[i] == if pattern(s[i]) then c else s[i]
  {
    if s != [] {
      SubByCharPointwise(pattern, c, s[1..]);
      var r := Sub(pattern, [c], s);
      assert forall i :: 1 <= i < |s| ==> r[i] == Sub(pattern, [c], s[1..])[i - 1];
    }
  }

  /** Deleting (an empty replacement) keeps exactly the characters outside the
      pattern, in their order. */
  lemma {:induction false} SubDeleteSelects(pattern: char -> bool, s: string) returns (idx: seq<nat>)
    ensures SelectsExactly(Sub(pattern, "", s), s, Outside(pattern), idx)
  {
    if s == [] {
      idx := [];
    } else {
      var tail := SubDeleteSelects(pattern, s[1..]);
      if pattern(s[0]) {
        idx := SelectsSkipping(Sub(pattern, "", s), s, Outside(pattern), tail);
      } else {
        idx := SelectsTaking(Sub(pattern, "", s[1..]), s, Outside(pattern), tail);
      }
    }
  }

  /** Matching characters in the text give way to `repl`; if `repl` holds no
      character of `pattern2` and `pattern1` is contained in `pattern2`, a first
      substitution by `pattern1` changes nothing about the result of a second
      by `pattern2`. */
  lemma {:induction false} SubAbsorbs(pattern1: char -> bool, pattern2: char -> bool, repl: string, s: string)
    requires forall c :: pattern1(c) ==> pattern2(c)
    requires forall k :: 0 <= k < |repl| ==> !pattern2(repl[k])
    ensures Sub(pattern2, repl, Sub(pattern1, repl, s)) == Sub(pattern2, repl, s)
  {
    if s != [] {
      var head := if pattern1(s[0]) then repl else [s[0]];
      SubAppend(pattern2, repl, head, Sub(pattern1, repl, s[1..]));
      SubAbsorbs(pattern1, pattern2, repl, s[1..]);
      if pattern1(s[0]) {
        SubUnchanged(pattern2, repl, repl);
      } else {
        assert Sub(pattern2, repl, [s[0]]) == (if pattern2(s[0]) then repl else [s[0]]) + Sub(pattern2, repl, []);
      }
    }
  }

  /** A text with no character of the pattern is left as it is. */
  lemma {:induction false} SubUnchanged(pattern: char -> bool, repl: string, s: string)
    requires forall k :: 0 <= k < |s| ==> !pattern(s[k])
    ensures Sub(pattern, repl, s) == s
  {
    if s != [] {
      SubUnchanged(pattern, repl, s[1..]);
      assert s == [s[0]] + s[1..];
    }
  }

  /** Substituting twice is substituting once, when the replacement has no
      character of the pattern. */
  lemma SubIdempotent(pattern: char -> bool, repl: string, s: string)
    requires forall k :: 0 <= k < |repl| ==> !pattern(repl[k])
    ensures Sub(pattern, repl, Sub(pattern, repl, s)) == Sub(pattern, repl, s)
  {
    SubAbsorbs(pattern, pattern, repl, s);
  }
}
