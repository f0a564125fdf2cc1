/**
 * The handful of Python `str` operations the catalog tools rely on, over `seq<char>`:
 * `isspace`, `strip`/`lstrip`/`rstrip`, `rstrip(c)`, `lower` (ASCII letters only),
 * `startswith`, `endswith`, the substring test `w in s`, `split(sep)` for a
 * one-character separator, `sep.join(parts)` and the prefix slice `s[:n]`.
 */
module Text {

  /** Python's `str.isspace()` for one character, over Python's whitespace set; no letter, digit or `/` is whitespace. */
  predicate IsSpace(c: char)
    ensures IsSpace(c) ==> !('a' <= c <= 'z' || 'A' <= c <= 'Z' || '0' <= c <= '9' || c == '/')
  {
    || c == ' '
    || '\t' <= c <= '\r'
    || '\U{1c}' <= c <= '\U{1f}'
    || c == '\U{85}' || c == '\U{a0}' || c == '\U{1680}'
    || '\U{2000}' <= c <= '\U{200a}'
    || c == '\U{2028}' || c == '\U{2029}' || c == '\U{202f}' || c == '\U{205f}' || c == '\U{3000}'
  }

  /** `s.lstrip()`: the suffix of `s` left after dropping leading whitespace. */
  function LStrip(s: string): (r: string)
    ensures |r| <= |s|
    ensures r == [] || !IsSpace(r[0])
  {
    if s != [] && IsSpace(s[0]) then LStrip(s[1..]) else s
  }

  /** `lstrip` keeps a suffix and drops only whitespace. */
  lemma {:induction false} LStripSuffix(s: string)
    ensures var r := LStrip(s); r == s[|s| - |r|..] && forall i :: 0 <= i < |s| - |r| ==> IsSpace(s[i])
  {
    if s != [] && IsSpace(s[0]) {
      LStripSuffix(s[1..]);
    }
  }

  /** Leading whitespace of a concatenation is stripped from its first part, then from the second. */
  lemma {:induction false} LStripAppend(a: string, b: string)
    ensures LStrip(a + b) == if LStrip(a) == [] then LStrip(b) else LStrip(a) + b
  {
    if a != [] && IsSpace(a[0]) {
      assert (a + b)[1..] == a[1..] + b;
      LStripAppend(a[1..], b);
    } else if a == [] {
      assert a + b == b;
    }
  }

  /** `s.rstrip()`: the prefix of `s` left after dropping trailing whitespace. */
  function RStrip(s: string): (r: string)
    ensures |r| <= |s|
    ensures r == [] || !IsSpace(r[|r| - 1])
  {
    if s != [] && IsSpace(s[|s| - 1]) then RStrip(s[..|s| - 1]) else s
  }

  /** `rstrip` keeps a prefix and drops only whitespace. */
  lemma {:induction false} RStripPrefix(s: string)
    ensures var r := RStrip(s); r == s[..|r|] && forall i :: |r| <= i < |s| ==> IsSpace(s[i])
  {
    if s != [] && IsSpace(s[|s| - 1]) {
      RStripPrefix(s[..|s| - 1]);
    }
  }

  /** `s.strip()`: whitespace removed at both ends. */
  function Strip(s: string): (r: string)
    ensures |r| <= |s|
  {
    RStrip(LStrip(s))
  }

  /** `strip` leaves text that neither starts nor ends with whitespace. */
  lemma StripEnds(s: string)
    ensures var r := Strip(s); r == [] || (!IsSpace(r[0]) && !IsSpace(r[|r| - 1]))
  {
    RStripPrefix(LStrip(s));
  }

  /** `s.rstrip(c)`: the prefix of `s` left after dropping every trailing `c`. */
  function RStripChar(s: string, c: char): (r: string)
    ensures |r| <= |s|
    ensures r == [] || r[|r| - 1] != c
  {
    if s != [] && s[|s| - 1] == c then RStripChar(s[..|s| - 1], c) else s
  }

  /** `rstrip(c)` keeps a prefix and drops only copies of `c`. */
  lemma {:induction false} RStripCharPrefix(s: string, c: char)
    ensures var r := RStripChar(s, c); r == s[..|r|] && forall i :: |r| <= i < |s| ==> s[i] == c
  {
    if s != [] && s[|s| - 1] == c {
      RStripCharPrefix(s[..|s| - 1], c);
    }
  }

  /** Lower-casing of one character; only ASCII letters are mapped. */
  function LowerChar(c: char): char {
    if 'A' <= c <= 'Z' then (c as int - 'A' as int + 'a' as int) as char else c
  }

  /** `s.lower()`, restricted to ASCII letters. */
  function Lower(s: string): (r: string)
    ensures |r| == |s|
    ensures forall i :: 0 <= i < |s| ==> r[i] == LowerChar(s[i])
  {
    if s == [] then [] else [LowerChar(s[0])] + Lower(s[1..])
  }

  predicate StartsWith(s: string, prefix: string) {
    |prefix| <= |s| && s[..|prefix|] == prefix
  }

  predicate EndsWith(s: string, suffix: string) {
    |suffix| <= |s| && s[|s| - |suffix|..] == suffix
  }

  /** Python's substring test `w in s`. */
  predicate Contains(s: string, w: string) {
    StartsWith(s, w) || (s != [] && Contains(s[1..], w))
  }

  /** `w` occurs in `s` starting at index `i`. */
  predicate OccursAt(s: string, w: string, i: int) {
    0 <= i && i + |w| <= |s| && s[i..i + |w|] == w
  }

  /** `w in s` holds exactly when `w` occurs at some index of `s`. */
  lemma {:induction false} ContainsIff(s: string, w: string)
    ensures Contains(s, w) <==> exists i :: OccursAt(s, w, i)
  {
    if s == [] {
      if w == [] {
        assert OccursAt(s, w, 0);
      } else {
        assert !StartsWith(s, w);
      }
    } else {
      ContainsIff(s[1..], w);
      if StartsWith(s, w) {
        assert OccursAt(s, w, 0);
      }
      if Contains(s[1..], w) {
        var i :| OccursAt(s[1..], w, i);
        assert s[i + 1..i + 1 + |w|] == s[1..][i..i + |w|];
        assert OccursAt(s, w, i + 1);
      }
      if exists i :: OccursAt(s, w, i) {
        var i :| OccursAt(s, w, i);
        if i > 0 {
          assert s[1..][i - 1..i - 1 + |w|] == s[i..i + |w|];
          assert OccursAt(s[1..], w, i - 1);
        }
      }
    }
  }

  lemma ContainsAt(s: string, w: string, i: int)
    requires OccursAt(s, w, i)
    ensures Contains(s, w)
  {
    ContainsIff(s, w);
  }

  /** An occurring word is no longer than the text. */
  lemma ContainsLength(s: string, w: string)
    ensures Contains(s, w) ==> |w| <= |s|
  {
    ContainsIff(s, w);
  }

  /** Every character of an occurring word occurs in the text. */
  lemma ContainsChars(s: string, w: string)
    requires Contains(s, w)
    ensures forall j :: 0 <= j < |w| ==> w[j] in s
  {
    ContainsIff(s, w);
    var i :| OccursAt(s, w, i);
    forall j | 0 <= j < |w| ensures w[j] in s {
      assert w[j] == s[i..i + |w|][j] == s[i + j];
    }
  }

  /** An occurrence in either half is an occurrence in the concatenation. */
  lemma ContainsAppend(x: string, y: string, w: string)
    requires Contains(x, w) || Contains(y, w)
    ensures Contains(x + y, w)
  {
    ContainsIff(x, w);
    ContainsIff(y, w);
    if Contains(x, w) {
      var i :| OccursAt(x, w, i);
      assert (x + y)[i..i + |w|] == x[i..i + |w|];
      ContainsAt(x + y, w, i);
    } else {
      var i :| OccursAt(y, w, i);
      assert (x + y)[|x| + i..|x| + i + |w|] == y[i..i + |w|];
      ContainsAt(x + y, w, |x| + i);
    }
  }

  /** Every character an occurrence covers is a character of the word. */
  lemma OccursAtCovers(s: string, w: string, i: int, k: int)
    requires OccursAt(s, w, i) && i <= k < i + |w|
    ensures s[k] in w
  {
    assert s[k] == s[i..i + |w|][k - i];
  }

  /**
   * A word that does not contain the character `c` and occurs in `x + [c] + y`
   * occurs in `x` or in `y`: no occurrence can straddle the `c`.
   */
  lemma ContainsAcross(x: string, c: char, y: string, w: string)
    requires c !in w
    requires Contains(x + [c] + y, w)
    ensures Contains(x, w) || Contains(y, w)
  {
    var s := x + [c] + y;
    ContainsIff(s, w);
    var i :| OccursAt(s, w, i);
    if i + |w| <= |x| {
      assert x[i..i + |w|] == s[i..i + |w|];
      ContainsAt(x, w, i);
    } else if i > |x| {
      assert y[i - |x| - 1..i - |x| - 1 + |w|] == s[i..i + |w|];
      ContainsAt(y, w, i - |x| - 1);
    } else {
      OccursAtCovers(s, w, i, |x|);
      assert false;
    }
  }

  /** Python's `s.split(sep)` for a one-character separator. */
  function Split(s: string, sep: char): (parts: seq<string>)
    ensures |parts| >= 1
    ensures forall i :: 0 <= i < |parts| ==> sep !in parts[i]
  {
    if s == [] then [[]]
    else
      var rest := Split(s[1..], sep);
      if s[0] == sep then [[]] + rest
      else [[s[0]] + rest[0]] + rest[1..]
  }

  /** Python's `sep.join(parts)`. */
  function Join(parts: seq<string>, sep: string): (s: string)
    ensures parts != [] ==> StartsWith(s, parts[0])
  {
    if parts == [] then []
    else if |parts| == 1 then parts[0]
    else parts[0] + sep + Join(parts[1..], sep)
  }

  /** Every part occurs in the joined text. */
  lemma {:induction false} JoinContains(parts: seq<string>, sep: string, i: int)
    requires 0 <= i < |parts|
    ensures Contains(Join(parts, sep), parts[i])
  {
    if |parts| == 1 {
      assert OccursAt(parts[0], parts[0], 0);
      ContainsAt(parts[0], parts[0], 0);
    } else if i == 0 {
      assert OccursAt(parts[0], parts[0], 0);
      ContainsAt(parts[0], parts[0], 0);
      ContainsAppend(parts[0], sep + Join(parts[1..], sep), parts[0]);
      assert Join(parts, sep) == parts[0] + (sep + Join(parts[1..], sep));
    } else {
      JoinContains(parts[1..], sep, i - 1);
      ContainsAppend(parts[0] + sep, Join(parts[1..], sep), parts[i]);
    }
  }

  /** Splitting and joining back with the same separator gives the text back. */
  lemma {:induction false} SplitJoin(s: string, sep: char)
    ensures Join(Split(s, sep), [sep]) == s
  {
    if s != [] {
      var rest := Split(s[1..], sep);
      SplitJoin(s[1..], sep);
      if s[0] == sep {
        assert Split(s, sep) == [[]] + rest;
        assert ([[]] + rest)[1..] == rest;
      } else {
        var parts := Split(s, sep);
        assert parts == [[s[0]] + rest[0]] + rest[1..];
        if |rest| == 1 {
          assert parts == [[s[0]] + rest[0]];
        } else {
          assert parts[1..] == rest[1..];
          assert Join(rest, [sep]) == rest[0] + [sep] + Join(rest[1..], [sep]);
        }
      }
    }
  }

  /** A separator splits the text into the pieces before it followed by the pieces after it. */
  lemma {:induction false} SplitAppend(x: string, sep: char, y: string)
    ensures Split(x + [sep] + y, sep) == Split(x, sep) + Split(y, sep)
  {
    var s := x + [sep] + y;
    if x == [] {
      assert s == [sep] + y && s[1..] == y;
    } else {
      assert s[1..] == x[1..] + [sep] + y;
      SplitAppend(x[1..], sep, y);
      SplitAppendStep(x, sep, y);
    }
  }

  /** The inductive step of `SplitAppend`: the first character of `x` goes where it goes in `x` alone. */
  lemma SplitAppendStep(x: string, sep: char, y: string)
    requires x != []
    requires Split(x[1..] + [sep] + y, sep) == Split(x[1..], sep) + Split(y, sep)
    ensures Split(x + [sep] + y, sep) == Split(x, sep) + Split(y, sep)
  {
    var s := x + [sep] + y;
    assert s[0] == x[0] && s[1..] == x[1..] + [sep] + y;
    SplitFirst(s, sep);
    SplitFirst(x, sep);
    PiecesCons(x[0], sep, Split(x[1..], sep), Split(y, sep));
  }

  /** Splitting a non-empty text: its first character starts a new piece when it is the separator, else joins the first piece. */
  lemma SplitFirst(s: string, sep: char)
    requires s != []
    ensures Split(s, sep) == ConsPiece(s[0], sep, Split(s[1..], sep))
  {
  }

  /** The pieces of `[c] + t`, given the pieces of `t`. */
  function ConsPiece(c: char, sep: char, pieces: seq<string>): seq<string>
    requires pieces != []
  {
    if c == sep then [[]] + pieces else [[c] + pieces[0]] + pieces[1..]
  }

  /** Adding a character in front of the pieces commutes with appending more pieces after them. */
  lemma PiecesCons(c: char, sep: char, pieces: seq<string>, more: seq<string>)
    requires pieces != []
    ensures ConsPiece(c, sep, pieces + more) == ConsPiece(c, sep, pieces) + more
  {
    if c != sep {
      assert (pieces + more)[1..] == pieces[1..] + more;
    }
  }

  /**
   * `last` is what follows the last `sep` of `s`: a suffix of `s` without `sep`
   * that is either all of `s` or directly preceded by `sep`.
   */
  predicate IsLastPiece(s: string, sep: char, last: string) {
    && EndsWith(s, last)
    && sep !in last
    && (|last| < |s| ==> s[|s| - |last| - 1] == sep)
  }

  /** `s.split(sep)[-1]` is the text after the last separator. */
  lemma {:induction false} SplitLast(s: string, sep: char)
    ensures IsLastPiece(s, sep, Split(s, sep)[|Split(s, sep)| - 1])
  {
    if s != [] {
      var rest := Split(s[1..], sep);
      var last := rest[|rest| - 1];
      SplitLast(s[1..], sep);
      SplitSingle(s[1..], sep);
      if s[0] != sep && |rest| == 1 {
        assert Split(s, sep) == [[s[0]] + s[1..]];
        assert [s[0]] + s[1..] == s;
      } else {
        assert Split(s, sep)[|Split(s, sep)| - 1] == last;
        assert s[|s| - |last|..] == s[1..][|s| - 1 - |last|..];
        if |last| == |s| - 1 {
          assert last == s[1..];
          if s[0] != sep {
            assert false;
          }
        } else if |last| < |s| - 1 {
          assert s[|s| - |last| - 1] == s[1..][|s| - 1 - |last| - 1];
        }
      }
    }
  }

  /** `s.split(sep)` is the single piece `[s]` exactly when `sep` does not occur in `s`. */
  lemma {:induction false} SplitSingle(s: string, sep: char)
    ensures |Split(s, sep)| == 1 <==> sep !in s
    ensures |Split(s, sep)| == 1 ==> Split(s, sep) == [s]
  {
    if s != [] {
      SplitSingle(s[1..], sep);
      assert sep in s <==> s[0] == sep || sep in s[1..];
      if s[0] != sep && sep !in s[1..] {
        assert [s[0]] + s[1..] == s;
      }
    }
  }

  /** Python's prefix slice `s[:n]`; a negative `n` counts from the end. */
  function Take<T>(s: seq<T>, n: int): (r: seq<T>)
    ensures |r| <= |s| && r == s[..|r|]
    ensures n >= 0 ==> |r| == if n <= |s| then n else |s|
    ensures n < 0 ==> |r| == if |s| + n >= 0 then |s| + n else 0
  {
    if n >= 0 then (if n <= |s| then s[..n] else s)
    else if |s| + n >= 0 then s[..|s| + n]
    else []
  }
}
