/** The few Python string operations the journal relies on: `str.isspace`,
    `str.strip()`, `str.split()` (on whitespace), `str.split(',')`,
    `str.lower()` and the substring test `needle in haystack`. */
module Text {

  /** Python's `str.isspace()` for one character: the characters that
      `split()` with no argument and `strip()` with no argument treat as
      whitespace. */
  predicate IsSpace(c: char)
  {
    c == ' ' || c == '\t' || c == '\n' || c == '\r'
    || c == '\U{000B}' || c == '\U{000C}'
    || ('\U{001C}' <= c <= '\U{001F}')
    || c == '\U{0085}' || c == '\U{00A0}' || c == '\U{1680}'
    || ('\U{2000}' <= c <= '\U{200A}')
    || c == '\U{2028}' || c == '\U{2029}' || c == '\U{202F}'
    || c == '\U{205F}' || c == '\U{3000}'
  }

  /** Every character is whitespace (this includes the empty string). */
  predicate IsBlank(s: string)
  {
    forall i :: 0 <= i < |s| ==> IsSpace(s[i])
  }

  /** No character is whitespace. */
  predicate NoSpace(s: string)
  {
    forall i :: 0 <= i < |s| ==> !IsSpace(s[i])
  }

  /** Neither starts nor ends with whitespace: what `strip()` returns. */
  predicate IsTrimmed(s: string)
  {
    s == [] || (!IsSpace(s[0]) && !IsSpace(s[|s| - 1]))
  }

  // ---------------------------------------------------------------- strip

  /** Length of the whitespace run at the start of `s`. */
  function LeadingSpaces(s: string): (n: nat)
    ensures n <= |s|
    ensures forall i :: 0 <= i < n ==> IsSpace(s[i])
    ensures n == |s| || !IsSpace(s[n])
  {
    if s != [] && IsSpace(s[0]) then 1 + LeadingSpaces(s[1..]) else 0
  }

  /** Length of the whitespace run at the end of `s`. */
  function TrailingSpaces(s: string): (n: nat)
    ensures n <= |s|
    ensures forall i :: |s| - n <= i < |s| ==> IsSpace(s[i])
    ensures n == |s| || !IsSpace(s[|s| - 1 - n])
  {
    if s != [] && IsSpace(s[|s| - 1]) then 1 + TrailingSpaces(s[..|s| - 1]) else 0
  }

  /** `s.strip()`: `s` without its leading and trailing whitespace. */
  function Strip(s: string): (r: string)
    ensures |r| <= |s|
    ensures IsTrimmed(r)
    ensures r == [] <==> IsBlank(s)
  {
    var t := s[LeadingSpaces(s)..];
    t[..|t| - TrailingSpaces(t)]
  }

  /** What `strip()` removes is whitespace and what it keeps is trimmed, so a
      string made of blank padding around a trimmed core strips to that core:
      this pins `Strip` down on every input. */
  lemma StripPadding(pre: string, core: string, post: string)
    requires IsBlank(pre) && IsBlank(post) && IsTrimmed(core)
    ensures Strip(pre + core + post) == core
  {
    var s := pre + core + post;
    if core == [] {
      assert IsBlank(s) by {
        forall i | 0 <= i < |s| ensures IsSpace(s[i]) {
          if i < |pre| { assert s[i] == pre[i]; } else { assert s[i] == post[i - |pre|]; }
        }
      }
    } else {
      assert s[|pre|] == core[0];
      LeadingSpacesPrefix(s, |pre|);
      var t := s[|pre|..];
      assert t == core + post;
      assert t[|core| - 1] == core[|core| - 1];
      TrailingSpacesSuffix(t, |core|);
    }
  }

  lemma {:induction false} LeadingSpacesPrefix(s: string, k: nat)
    requires k < |s| && !IsSpace(s[k])
    requires forall i :: 0 <= i < k ==> IsSpace(s[i])
    ensures LeadingSpaces(s) == k
  {
    if k > 0 {
      LeadingSpacesPrefix(s[1..], k - 1);
    }
  }

  lemma {:induction false} TrailingSpacesSuffix(s: string, k: nat)
    requires 0 < k <= |s| && !IsSpace(s[k - 1])
    requires forall i :: k <= i < |s| ==> IsSpace(s[i])
    ensures TrailingSpaces(s) == |s| - k
  {
    if k < |s| {
      TrailingSpacesSuffix(s[..|s| - 1], k);
    }
  }

  /** `strip()` is idempotent, and leaves a trimmed string as it is. */
  lemma StripTrimmed(s: string)
    requires IsTrimmed(s)
    ensures Strip(s) == s
  {
    StripPadding([], s, []);
    assert [] + s + [] == s;
  }

  // ---------------------------------------------------------------- split()

  /** Length of the run of non-whitespace characters at the start of `s`. */
  function WordLength(s: string): (n: nat)
    ensures n <= |s|
    ensures forall i :: 0 <= i < n ==> !IsSpace(s[i])
    ensures n == |s| || IsSpace(s[n])
  {
    if s != [] && !IsSpace(s[0]) then 1 + WordLength(s[1..]) else 0
  }

  /** A word as `split()` yields it: non-empty, without whitespace. */
  predicate IsWord(w: string)
  {
    w != [] && NoSpace(w)
  }

  /** `s.split()` with no argument: the maximal runs of non-whitespace
      characters of `s`, in order; leading, trailing and repeated whitespace
      produce no empty words. */
  function Words(s: string): (ws: seq<string>)
    ensures forall k :: 0 <= k < |ws| ==> IsWord(ws[k])
    ensures ws == [] <==> IsBlank(s)
    decreases |s|
  {
    if s == [] then []
    else if IsSpace(s[0]) then
      var ws := Words(s[1..]);
      assert IsBlank(s[1..]) ==> IsBlank(s) by {
        if IsBlank(s[1..]) {
          forall i | 0 <= i < |s| ensures IsSpace(s[i]) { if i > 0 { assert s[i] == s[1..][i - 1]; } }
        }
      }
      ws
    else
      var n := WordLength(s);
      [s[..n]] + Words(s[n..])
  }

  /** The strings joined with `sep` between consecutive ones
      (Python's `sep.join(parts)`). */
  function JoinWith(parts: seq<string>, sep: string): (r: string)
  {
    if parts == [] then []
    else if |parts| == 1 then parts[0]
    else parts[0] + sep + JoinWith(parts[1..], sep)
  }

  /** `split()` undoes `" ".join(ws)` for any list of words. */
  lemma {:induction false} WordsOfJoin(ws: seq<string>)
    requires forall k :: 0 <= k < |ws| ==> IsWord(ws[k])
    ensures Words(JoinWith(ws, " ")) == ws
  {
    if ws == [] {
    } else if |ws| == 1 {
      WordLengthOfWord(ws[0], []);
      assert ws[0][..|ws[0]|] == ws[0];
    } else {
      var w, rest := ws[0], JoinWith(ws[1..], " ");
      var s := w + " " + rest;
      assert s == w + (" " + rest);
      WordLengthOfWord(w, " " + rest);
      assert s[..|w|] == w;
      assert s[|w|..] == " " + rest;
      assert (" " + rest)[1..] == rest;
      WordsOfJoin(ws[1..]);
      assert Words(s) == [w] + Words(" " + rest);
      assert ws == [w] + ws[1..];
    }
  }

  lemma {:induction false} WordLengthOfWord(w: string, t: string)
    requires NoSpace(w)
    requires t == [] || IsSpace(t[0])
    ensures WordLength(w + t) == |w|
  {
    if w != [] {
      assert (w + t)[1..] == w[1..] + t;
      WordLengthOfWord(w[1..], t);
    }
  }

  /** The characters of `s` that are not whitespace, in order. */
  function DropSpaces(s: string): (r: string)
  {
    if s == [] then []
    else (if IsSpace(s[0]) then [] else [s[0]]) + DropSpaces(s[1..])
  }

  /** The concatenation of a list of strings. */
  function Concat(ws: seq<string>): (r: string)
  {
    if ws == [] then [] else ws[0] + Concat(ws[1..])
  }

  /** `split()` loses only whitespace: its words, put back together, are
      exactly the non-whitespace characters of the input, in order. */
  lemma {:induction false} WordsKeepText(s: string)
    ensures Concat(Words(s)) == DropSpaces(s)
    decreases |s|
  {
    if s == [] {
    } else if IsSpace(s[0]) {
      WordsKeepText(s[1..]);
    } else {
      var n := WordLength(s);
      var ws := Words(s);
      assert ws == [s[..n]] + Words(s[n..]);
      assert ws[1..] == Words(s[n..]);
      WordsKeepText(s[n..]);
      DropSpacesAppend(s[..n], s[n..]);
      assert s[..n] + s[n..] == s;
      DropSpacesOfWord(s[..n]);
    }
  }

  lemma {:induction false} DropSpacesAppend(a: string, b: string)
    ensures DropSpaces(a + b) == DropSpaces(a) + DropSpaces(b)
  {
    if a == [] {
      assert a + b == b;
    } else {
      var head := if IsSpace(a[0]) then [] else [a[0]];
      assert (a + b)[0] == a[0];
      assert (a + b)[1..] == a[1..] + b;
      DropSpacesAppend(a[1..], b);
      assert DropSpaces(a + b) == head + (DropSpaces(a[1..]) + DropSpaces(b));
      assert DropSpaces(a) == head + DropSpaces(a[1..]);
    }
  }

  lemma {:induction false} DropSpacesOfWord(w: string)
    requires NoSpace(w)
    ensures DropSpaces(w) == w
  {
    if w != [] {
      DropSpacesOfWord(w[1..]);
    }
  }

  // ---------------------------------------------------------------- split(',')

  /** `s.split(d)` for a one-character separator: the pieces between the
      separators, empty ones included, so there is always at least one. */
  function SplitOn(s: string, d: char): (parts: seq<string>)
    ensures |parts| >= 1
    ensures forall k :: 0 <= k < |parts| ==> d !in parts[k]
    ensures JoinWith(parts, [d]) == s
  {
    if s == [] then [[]]
    else
      var rest := SplitOn(s[1..], d);
      if s[0] == d then
        var parts := [[]] + rest;
        assert parts[1..] == rest;
        assert JoinWith(parts, [d]) == [] + [d] + JoinWith(rest, [d]);
        assert [d] + s[1..] == s;
        parts
      else
        var parts := [[s[0]] + rest[0]] + rest[1..];
        assert parts[1..] == rest[1..];
        assert JoinWith(parts, [d]) == [s[0]] + JoinWith(rest, [d]) by {
          if |rest| > 1 {
            assert JoinWith(rest, [d]) == rest[0] + [d] + JoinWith(rest[1..], [d]);
          }
        }
        assert [s[0]] + s[1..] == s;
        parts
  }

  /** Splitting a joined list gives the list back, provided no piece holds
      the separator: with the ensures of `SplitOn`, a round trip both ways. */
  lemma {:induction false} SplitOnJoin(parts: seq<string>, d: char)
    requires |parts| >= 1
    requires forall k :: 0 <= k < |parts| ==> d !in parts[k]
    ensures SplitOn(JoinWith(parts, [d]), d) == parts
  {
    if |parts| == 1 {
      SplitOnPiece(parts[0], [], d);
    } else {
      var p, rest := parts[0], JoinWith(parts[1..], [d]);
      assert JoinWith(parts, [d]) == p + ([d] + rest);
      SplitOnPiece(p, [d] + rest, d);
      assert ([d] + rest)[1..] == rest;
      SplitOnJoin(parts[1..], d);
      assert parts == [p] + parts[1..];
    }
  }

  /** Splitting `p + t` where `p` holds no separator: `p` is glued to the
      front of the first piece of `t`'s split (which is `[]` when `t` starts
      with the separator). */
  lemma {:induction false} SplitOnPiece(p: string, t: string, d: char)
    requires d !in p
    requires t == [] || t[0] == d
    ensures t == [] ==> SplitOn(p + t, d) == [p]
    ensures t != [] ==> SplitOn(p + t, d) == [p] + SplitOn(t[1..], d)
  {
    if p != [] {
      assert (p + t)[1..] == p[1..] + t;
      SplitOnPiece(p[1..], t, d);
      assert [p[0]] + p[1..] == p;
    } else {
      assert p + t == t;
    }
  }

  // ---------------------------------------------------------------- lower()

  /** An upper-case letter that `str.lower()` maps by adding 32 to its code:
      ASCII `A`-`Z` and the Latin-1 capitals `À`-`Þ` except `×`. */
  predicate IsUpper(c: char)
  {
    ('A' <= c <= 'Z') || ('\U{00C0}' <= c <= '\U{00DE}' && c != '\U{00D7}')
  }

  /** `c.lower()` on those letters; every other character is left as it is. */
  function LowerChar(c: char): (l: char)
    ensures !IsUpper(l)
    ensures IsUpper(c) ==> l as int == c as int + 32
    ensures !IsUpper(c) ==> l == c
  {
    if IsUpper(c) then (c as int + 32) as char else c
  }

  /** `s.lower()` character by character: the result has no upper-case
      letter left, and a text without one is returned unchanged. */
  function Lower(s: string): (r: string)
    ensures |r| == |s|
    ensures forall i :: 0 <= i < |r| ==> !IsUpper(r[i])
    ensures (forall i :: 0 <= i < |s| ==> !IsUpper(s[i])) ==> r == s
  {
    seq(|s|, i requires 0 <= i < |s| => LowerChar(s[i]))
  }

  /** Lower-casing twice is lower-casing once. */
  lemma LowerIdempotent(s: string)
    ensures Lower(Lower(s)) == Lower(s)
  {
  }

  // ---------------------------------------------------------------- `in`

  /** `needle` occurs in `haystack` starting at index `i`. */
  predicate OccursAt(haystack: string, needle: string, i: int)
  {
    0 <= i && i + |needle| <= |haystack| && haystack[i..i + |needle|] == needle
  }

  /** Python's `needle in haystack` on strings. */
  predicate Contains(haystack: string, needle: string)
    decreases |haystack|
  {
    needle <= haystack || (haystack != [] && Contains(haystack[1..], needle))
  }

  /** `Contains` is the substring test: it holds exactly when the needle
      occurs at some position. */
  lemma {:induction false} ContainsIff(haystack: string, needle: string)
    ensures Contains(haystack, needle) <==> exists i :: OccursAt(haystack, needle, i)
    decreases |haystack|
  {
    if needle <= haystack {
      assert OccursAt(haystack, needle, 0);
    } else if haystack == [] {
      assert forall i :: !OccursAt(haystack, needle, i);
    } else {
      ContainsIff(haystack[1..], needle);
      if exists i :: OccursAt(haystack[1..], needle, i) {
        var i :| OccursAt(haystack[1..], needle, i);
        assert haystack[i + 1..i + 1 + |needle|] == haystack[1..][i..i + |needle|];
        assert OccursAt(haystack, needle, i + 1);
      }
      if exists i :: OccursAt(haystack, needle, i) {
        var i :| OccursAt(haystack, needle, i);
        assert i > 0;
        assert haystack[1..][i - 1..i - 1 + |needle|] == haystack[i..i + |needle|];
        assert OccursAt(haystack[1..], needle, i - 1);
      }
    }
  }

  /** The empty string is in every string. */
  lemma ContainsEmpty(haystack: string)
    ensures Contains(haystack, [])
  {
  }
}
