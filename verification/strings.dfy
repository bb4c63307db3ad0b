/**
 The parts of Go's `strings` and `unicode` packages that the command engine
 relies on: `unicode.IsSpace`, `strings.Fields`, `strings.TrimSpace`,
 `strings.Split`, `strings.SplitN(_, _, 2)` and a one-character
 `strings.ReplaceAll`. Strings are sequences of Unicode code points.
 */
module Strings {
  import opened Options

  /** The code points Go's `unicode.IsSpace` accepts: the Latin-1 spaces and the White_Space characters above Latin-1. */
  const SpaceChars: set<char> := {
    '\t', '\n', '\U{000B}', '\U{000C}', '\r', ' ', '\U{0085}', '\U{00A0}',
    '\U{1680}', '\U{2000}', '\U{2001}', '\U{2002}', '\U{2003}', '\U{2004}', '\U{2005}',
    '\U{2006}', '\U{2007}', '\U{2008}', '\U{2009}', '\U{200A}',
    '\U{2028}', '\U{2029}', '\U{202F}', '\U{205F}', '\U{3000}'
  }

  predicate IsSpace(c: char) {
    c in SpaceChars
  }

  predicate AllSpace(s: string) {
    forall k :: 0 <= k < |s| ==> IsSpace(s[k])
  }

  predicate NoSpace(s: string) {
    forall k :: 0 <= k < |s| ==> !IsSpace(s[k])
  }

  /** A field as `strings.Fields` produces it: non-empty and free of white space. */
  predicate IsWord(w: string) {
    w != [] && NoSpace(w)
  }

  /** A non-empty run of visible ASCII characters is a word. */
  lemma VisibleIsWord(w: string)
    requires w != [] && forall k :: 0 <= k < |w| ==> '!' <= w[k] <= '~'
    ensures IsWord(w)
  {
    forall k | 0 <= k < |w| ensures !IsSpace(w[k]) {
      assert '!' <= w[k] <= '~';
    }
  }

  /** Trimmed text: empty, or starting and ending with a non-space character. */
  predicate IsTrimmed(s: string) {
    s == [] || (!IsSpace(s[0]) && !IsSpace(s[|s| - 1]))
  }

  predicate OccursAt(s: string, sep: string, i: nat) {
    i + |sep| <= |s| && s[i..i + |sep|] == sep
  }

  predicate Contains(s: string, sep: string) {
    exists i :: 0 <= i <= |s| && OccursAt(s, sep, i)
  }

  /** `parts` joined with `sep` between neighbours (Go's `strings.Join`). */
  function Join(parts: seq<string>, sep: string): string
    decreases |parts|
  {
    if |parts| == 0 then ""
    else if |parts| == 1 then parts[0]
    else parts[0] + sep + Join(parts[1..], sep)
  }

  /** The characters of `s` that are not white space, in order. */
  function NonSpace(s: string): string
    decreases |s|
  {
    if s == [] then []
    else if IsSpace(s[0]) then NonSpace(s[1..])
    else [s[0]] + NonSpace(s[1..])
  }

  function Concat(parts: seq<string>): string
    decreases |parts|
  {
    if parts == [] then [] else parts[0] + Concat(parts[1..])
  }

  /**
   The fields of `s` when `word` is the part of a field already read:
   a white-space character ends the current field, any other character
   extends it.
   */
  function FieldsFrom(s: string, word: string): (r: seq<string>)
    requires NoSpace(word)
    ensures forall i :: 0 <= i < |r| ==> IsWord(r[i])
    decreases |s|
  {
    if s == [] then
      if word == [] then [] else [word]
    else if IsSpace(s[0]) then
      if word == [] then FieldsFrom(s[1..], []) else [word] + FieldsFrom(s[1..], [])
    else
      FieldsFrom(s[1..], word + [s[0]])
  }

  /** Go's `strings.Fields`: the maximal runs of non-space characters of `s`, in order. */
  function Fields(s: string): (r: seq<string>)
    ensures forall i :: 0 <= i < |r| ==> IsWord(r[i])
  {
    FieldsFrom(s, [])
  }

  /** Length of the longest white-space prefix of `s`. */
  function SpacePrefix(s: string): (n: nat)
    ensures n <= |s|
    ensures forall k :: 0 <= k < n ==> IsSpace(s[k])
    ensures n < |s| ==> !IsSpace(s[n])
    decreases |s|
  {
    if s == [] || !IsSpace(s[0]) then 0 else 1 + SpacePrefix(s[1..])
  }

  /** Length of the longest white-space suffix of `s`. */
  function SpaceSuffix(s: string): (n: nat)
    ensures n <= |s|
    ensures forall k :: |s| - n <= k < |s| ==> IsSpace(s[k])
    ensures n < |s| ==> !IsSpace(s[|s| - 1 - n])
    decreases |s|
  {
    if s == [] || !IsSpace(s[|s| - 1]) then 0 else 1 + SpaceSuffix(s[..|s| - 1])
  }

  /** Go's `strings.TrimSpace`: `s` without its leading and trailing white space. */
  function TrimSpace(s: string): (r: string)
    ensures IsTrimmed(r)
    ensures exists i, j :: 0 <= i <= j <= |s| && r == s[i..j] && AllSpace(s[..i]) && AllSpace(s[j..])
  {
    var i := SpacePrefix(s);
    var t := s[i..];
    var j := i + |t| - SpaceSuffix(t);
    assert t[..j - i] == s[i..j];
    assert AllSpace(s[j..]) by {
      forall k | 0 <= k < |s[j..]| ensures IsSpace(s[j..][k]) {
        assert s[j..][k] == t[j - i + k];
      }
    }
    s[i..j]
  }

  /**
   Go's `strings.Split(s, string(c))`: the pieces of `s` between occurrences
   of `c`; there is always one more piece than there are occurrences.
   */
  function Split(s: string, c: char): (r: seq<string>)
    ensures |r| >= 1
    ensures forall i :: 0 <= i < |r| ==> c !in r[i]
    decreases |s|
  {
    if s == [] then [""]
    else
      var rest := Split(s[1..], c);
      if s[0] == c then [""] + rest
      else [[s[0]] + rest[0]] + rest[1..]
  }

  /** Go's `strings.Index` from position `from`: the first occurrence of `sep` in `s` at or after `from`. */
  function IndexFrom(s: string, sep: string, from: nat): (r: Option<nat>)
    requires from <= |s|
    ensures r.Some? ==> from <= r.value && OccursAt(s, sep, r.value)
    ensures r.Some? ==> forall i: nat :: from <= i < r.value ==> !OccursAt(s, sep, i)
    ensures r.None? ==> forall i: nat :: from <= i ==> !OccursAt(s, sep, i)
    decreases |s| - from
  {
    if from + |sep| > |s| then None
    else if s[from..from + |sep|] == sep then Some(from)
    else if from == |s| then None
    else IndexFrom(s, sep, from + 1)
  }

  /**
   Go's `strings.SplitN(s, sep, 2)` for a non-empty separator: `[s]` when
   `sep` does not occur, otherwise the text before and after its first
   occurrence.
   */
  function SplitN2(s: string, sep: string): (r: seq<string>)
    requires sep != []
    ensures |r| == 1 || |r| == 2
    ensures |r| == 1 <==> !Contains(s, sep)
    ensures |r| == 1 ==> r[0] == s
    ensures |r| == 2 ==> s == r[0] + sep + r[1]
    ensures |r| == 2 ==> forall i: nat :: i < |r[0]| ==> !OccursAt(s, sep, i)
  {
    match IndexFrom(s, sep, 0)
    case None => [s]
    case Some(k) =>
      assert s == s[..k] + s[k..k + |sep|] + s[k + |sep|..];
      [s[..k], s[k + |sep|..]]
  }

  /** Go's `strings.ReplaceAll` with one-character old and new strings. */
  function ReplaceChar(s: string, from: char, to: char): (r: string)
    ensures |r| == |s|
    ensures forall i :: 0 <= i < |s| ==> r[i] == (if s[i] == from then to else s[i])
    decreases |s|
  {
    if s == [] then []
    else [if s[0] == from then to else s[0]] + ReplaceChar(s[1..], from, to)
  }

  // ---------------------------------------------------------------------------
  // Lemmas
  // ---------------------------------------------------------------------------

  /** Replacing every `from` by a different character leaves no `from` behind. */
  lemma ReplaceCharRemoves(s: string, from: char, to: char)
    requires from != to
    ensures from !in ReplaceChar(s, from, to)
  {
    var r := ReplaceChar(s, from, to);
    forall i | 0 <= i < |r|
      ensures r[i] != from
    {
      assert r[i] == (if s[i] == from then to else s[i]);
    }
  }

  lemma {:induction false} FieldsFromEmpty(s: string, word: string)
    requires NoSpace(word)
    ensures FieldsFrom(s, word) == [] <==> word == [] && AllSpace(s)
    decreases |s|
  {
    if s != [] {
      if IsSpace(s[0]) {
        FieldsFromEmpty(s[1..], []);
        assert AllSpace(s) <==> AllSpace(s[1..]) by {
          assert forall k :: 0 < k < |s| ==> s[k] == s[1..][k - 1];
        }
      } else {
        FieldsFromEmpty(s[1..], word + [s[0]]);
      }
    }
  }

  /** A line has no fields exactly when it is blank. */
  lemma FieldsOfBlank(s: string)
    ensures Fields(s) == [] <==> AllSpace(s)
  {
    FieldsFromEmpty(s, []);
  }

  lemma {:induction false} FieldsFromKeepNonSpace(s: string, word: string)
    requires NoSpace(word)
    ensures Concat(FieldsFrom(s, word)) == word + NonSpace(s)
    decreases |s|
  {
    if s == [] {
      if word != [] {
        assert Concat([word]) == word + Concat([]);
      }
    } else if IsSpace(s[0]) {
      FieldsFromKeepNonSpace(s[1..], []);
      if word != [] {
        var rest := FieldsFrom(s[1..], []);
        assert ([word] + rest)[1..] == rest;
      }
    } else {
      FieldsFromKeepNonSpace(s[1..], word + [s[0]]);
    }
  }

  /** The fields of a line, glued together, are exactly its non-space characters. */
  lemma FieldsKeepNonSpace(s: string)
    ensures Concat(Fields(s)) == NonSpace(s)
  {
    FieldsFromKeepNonSpace(s, []);
  }

  lemma {:induction false} FieldsFromSkipSpace(sp: string, t: string)
    requires AllSpace(sp)
    ensures FieldsFrom(sp + t, []) == FieldsFrom(t, [])
    decreases |sp|
  {
    if sp == [] {
      assert sp + t == t;
    } else {
      assert (sp + t)[0] == sp[0];
      assert (sp + t)[1..] == sp[1..] + t;
      FieldsFromSkipSpace(sp[1..], t);
    }
  }

  /** Leading white space does not change the fields of a line. */
  lemma FieldsSkipSpace(sp: string, t: string)
    requires AllSpace(sp)
    ensures Fields(sp + t) == Fields(t)
  {
    FieldsFromSkipSpace(sp, t);
  }

  lemma {:induction false} FieldsFromWord(w: string, rest: string, word: string)
    requires NoSpace(word) && NoSpace(w)
    ensures FieldsFrom(w + rest, word) == FieldsFrom(rest, word + w)
    decreases |w|
  {
    if w == [] {
      assert w + rest == rest;
      assert word + w == word;
    } else {
      assert (w + rest)[0] == w[0];
      assert (w + rest)[1..] == w[1..] + rest;
      assert word + w == (word + [w[0]]) + w[1..];
      FieldsFromWord(w[1..], rest, word + [w[0]]);
    }
  }

  /**
   A word followed by a run of one or more white-space characters is one
   field; the fields of the rest follow. With `FieldsSkipSpace` and
   `FieldsOfBlank` this fixes `Fields` on every line.
   */
  lemma FieldsOfWordThenSpace(w: string, sp: string, t: string)
    requires IsWord(w) && sp != [] && AllSpace(sp)
    ensures Fields(w + sp + t) == [w] + Fields(t)
  {
    assert w + sp + t == w + (sp + t);
    FieldsFromWord(w, sp + t, []);
    assert [] + w == w;
    assert (sp + t)[0] == sp[0] && (sp + t)[1..] == sp[1..] + t;
    FieldsFromSkipSpace(sp[1..], t);
  }

  /** Tabs and repeated spaces separate fields just as a single space does. */
  lemma FieldsOfMixedSpace(a: string, b: string)
    requires IsWord(a) && IsWord(b)
    ensures Fields(a + "\t" + b) == [a, b]
    ensures Fields(a + "  " + b + "\n") == [a, b]
  {
    FieldsOfWordThenSpace(a, "\t", b);
    FieldsOfWordThenSpace(a, "  ", b + "\n");
    assert a + "  " + b + "\n" == a + "  " + (b + "\n");
    FieldsOfWordThenSpace(b, "\n", "");
    assert b + "\n" + "" == b + "\n";
    FieldsOfBlank("");
    FieldsOfJoin([b]);
    assert Join([b], " ") == b;
  }

  /** Round trip: splitting words joined by single spaces gives the words back. */
  lemma {:induction false} FieldsOfJoin(ws: seq<string>)
    requires forall i :: 0 <= i < |ws| ==> IsWord(ws[i])
    ensures Fields(Join(ws, " ")) == ws
    decreases |ws|
  {
    if |ws| == 1 {
      FieldsFromWord(ws[0], "", []);
      assert ws[0] + "" == ws[0];
      assert [] + ws[0] == ws[0];
    } else if |ws| > 1 {
      var rest := Join(ws[1..], " ");
      assert Join(ws, " ") == ws[0] + (" " + rest);
      FieldsFromWord(ws[0], " " + rest, []);
      assert [] + ws[0] == ws[0];
      assert (" " + rest)[1..] == rest;
      FieldsOfJoin(ws[1..]);
    }
  }

  lemma {:induction false} SpacePrefixAfterSpace(sp: string, t: string)
    requires AllSpace(sp)
    ensures SpacePrefix(sp + t) == |sp| + SpacePrefix(t)
    decreases |sp|
  {
    if sp == [] {
      assert sp + t == t;
    } else {
      assert (sp + t)[0] == sp[0];
      assert (sp + t)[1..] == sp[1..] + t;
      SpacePrefixAfterSpace(sp[1..], t);
    }
  }

  lemma {:induction false} SpaceSuffixBeforeSpace(t: string, sp: string)
    requires AllSpace(sp)
    ensures SpaceSuffix(t + sp) == |sp| + SpaceSuffix(t)
    decreases |sp|
  {
    if sp == [] {
      assert t + sp == t;
    } else {
      var s := t + sp;
      assert s[|s| - 1] == sp[|sp| - 1];
      assert s[..|s| - 1] == t + sp[..|sp| - 1];
      SpaceSuffixBeforeSpace(t, sp[..|sp| - 1]);
    }
  }

  /** `TrimSpace` removes exactly the surrounding white space and nothing else. */
  lemma TrimSpaceOf(pre: string, w: string, post: string)
    requires AllSpace(pre) && AllSpace(post) && IsTrimmed(w)
    ensures TrimSpace(pre + w + post) == w
  {
    if w == [] {
      assert pre + w + post == pre + post;
      TrimSpaceOfBlank(pre, post);
    } else {
      TrimSpaceOfWord(pre, w, post);
    }
  }

  lemma TrimSpaceOfBlank(pre: string, post: string)
    requires AllSpace(pre) && AllSpace(post)
    ensures TrimSpace(pre + post) == []
  {
    var s := pre + post;
    SpacePrefixAfterSpace(pre, post);
    SpacePrefixAfterSpace(post, []);
    assert post + [] == post;
    assert SpacePrefix(s) == |s|;
  }

  lemma TrimSpaceOfWord(pre: string, w: string, post: string)
    requires AllSpace(pre) && AllSpace(post) && IsTrimmed(w) && w != []
    ensures TrimSpace(pre + w + post) == w
  {
    var s := pre + w + post;
    assert s == pre + (w + post);
    SpacePrefixAfterSpace(pre, w + post);
    assert (w + post)[0] == w[0];
    assert SpacePrefix(s) == |pre|;
    var t := s[|pre|..];
    assert t == w + post;
    SpaceSuffixBeforeSpace(w, post);
    assert SpaceSuffix(t) == |post|;
    assert s[|pre|..|pre| + |w|] == w;
  }

  /** Trimming twice is trimming once. */
  lemma TrimSpaceIdempotent(s: string)
    ensures TrimSpace(TrimSpace(s)) == TrimSpace(s)
  {
    var r := TrimSpace(s);
    TrimSpaceOf("", r, "");
    assert "" + r + "" == r;
  }

  /** Round trip: joining the pieces of `s` with `c` rebuilds `s`. */
  lemma {:induction false} JoinSplit(s: string, c: char)
    ensures Join(Split(s, c), [c]) == s
    decreases |s|
  {
    if s != [] {
      var rest := Split(s[1..], c);
      JoinSplit(s[1..], c);
      if s[0] == c {
        assert Split(s, c) == [""] + rest;
        assert Join([""] + rest, [c]) == "" + [c] + Join(rest, [c]);
      } else {
        var r := Split(s, c);
        assert r == [[s[0]] + rest[0]] + rest[1..];
        if |rest| == 1 {
          assert Join(r, [c]) == [s[0]] + rest[0];
        } else {
          assert Join(rest, [c]) == rest[0] + [c] + Join(rest[1..], [c]);
          assert r[1..] == rest[1..];
          assert Join(r, [c]) == [s[0]] + rest[0] + [c] + Join(rest[1..], [c]);
        }
        assert s == [s[0]] + s[1..];
      }
    }
  }

  lemma {:induction false} SplitOfPiece(w: string, c: char)
    requires c !in w
    ensures Split(w, c) == [w]
    decreases |w|
  {
    if w != [] {
      SplitOfPiece(w[1..], c);
      assert [w[0]] + w[1..] == w;
    }
  }

  lemma {:induction false} SplitOfPieceThen(w: string, c: char, t: string)
    requires c !in w
    ensures Split(w + [c] + t, c) == [w] + Split(t, c)
    decreases |w|
  {
    var s := w + [c] + t;
    if w == [] {
      assert s[1..] == t;
    } else {
      assert s[1..] == w[1..] + [c] + t;
      SplitOfPieceThen(w[1..], c, t);
      assert [w[0]] + w[1..] == w;
    }
  }

  /** Round trip: splitting pieces joined with `c` gives the pieces back when none holds `c`. */
  lemma {:induction false} SplitJoin(parts: seq<string>, c: char)
    requires |parts| >= 1
    requires forall i :: 0 <= i < |parts| ==> c !in parts[i]
    ensures Split(Join(parts, [c]), c) == parts
    decreases |parts|
  {
    if |parts| == 1 {
      SplitOfPiece(parts[0], c);
    } else {
      SplitJoin(parts[1..], c);
      SplitOfPieceThen(parts[0], c, Join(parts[1..], [c]));
    }
  }
}
