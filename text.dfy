/** Python's whitespace handling on `str`: the characters `str.isspace`
    accepts, and the argument-less `str.strip()` and `str.split()` that
    both use that one character class. */
module Text {

  /** The characters CPython treats as whitespace when `strip()` and
      `split()` are called without an argument: the ASCII controls 0x09-0x0D
      and 0x1C-0x1F, the space, NEL, NO-BREAK SPACE, OGHAM SPACE MARK, the
      typographic spaces U+2000-U+200A, the line and paragraph separators,
      NARROW NO-BREAK SPACE, MEDIUM MATHEMATICAL SPACE and IDEOGRAPHIC SPACE. */
  predicate IsSpace(c: char)
  {
    || ('\t' <= c <= '\r')
    || ('\U{1C}' <= c <= ' ')
    || c == '\U{85}' || c == '\U{A0}' || c == '\U{1680}'
    || ('\U{2000}' <= c <= '\U{200A}')
    || c == '\U{2028}' || c == '\U{2029}' || c == '\U{202F}'
    || c == '\U{205F}' || c == '\U{3000}'
  }

  /** Every character of `s` is whitespace (this includes the empty string). */
  predicate AllSpace(s: string)
  {
    forall i :: 0 <= i < |s| ==> IsSpace(s[i])
  }

  /** No character of `s` is whitespace. */
  predicate NoSpace(s: string)
  {
    forall i :: 0 <= i < |s| ==> !IsSpace(s[i])
  }

  /** A word as `split()` produces it: non-empty and free of whitespace. */
  predicate IsWord(w: string)
  {
    w != [] && NoSpace(w)
  }

  predicate AllWords(ws: seq<string>)
  {
    forall i :: 0 <= i < |ws| ==> IsWord(ws[i])
  }

  /** `s.lstrip()`. */
  function TrimLeft(s: string): string
  {
    if s != [] && IsSpace(s[0]) then TrimLeft(s[1..]) else s
  }

  /** `lstrip()` keeps a suffix, removes only whitespace, and stops at the
      first character that is not whitespace. */
  lemma {:induction false} TrimLeftSpec(s: string)
    ensures |TrimLeft(s)| <= |s| && TrimLeft(s) == s[|s| - |TrimLeft(s)|..]
    ensures AllSpace(s[..|s| - |TrimLeft(s)|])
    ensures TrimLeft(s) == [] || !IsSpace(TrimLeft(s)[0])
    decreases |s|
  {
    if s != [] && IsSpace(s[0]) {
      TrimLeftSpec(s[1..]);
      var r := TrimLeft(s);
      assert s[..|s| - |r|] == [s[0]] + s[1..][..|s| - 1 - |r|];
    }
  }

  /** `s.rstrip()`. */
  function TrimRight(s: string): string
  {
    if s != [] && IsSpace(s[|s| - 1]) then TrimRight(s[..|s| - 1]) else s
  }

  /** `rstrip()` keeps a prefix, removes only whitespace, and stops at the
      last character that is not whitespace. */
  lemma {:induction false} TrimRightSpec(s: string)
    ensures |TrimRight(s)| <= |s| && TrimRight(s) == s[..|TrimRight(s)|]
    ensures AllSpace(s[|TrimRight(s)|..])
    ensures TrimRight(s) == [] || !IsSpace(TrimRight(s)[|TrimRight(s)| - 1])
    decreases |s|
  {
    if s != [] && IsSpace(s[|s| - 1]) {
      TrimRightSpec(s[..|s| - 1]);
      var r := TrimRight(s);
      assert s[|r|..] == s[..|s| - 1][|r|..] + [s[|s| - 1]];
    }
  }

  /** `s.strip()`: the middle of `s` between its leading and its trailing
      whitespace; it is empty exactly when `s` is all whitespace. */
  function Strip(s: string): (r: string)
    ensures |r| <= |s|
    ensures r == [] <==> AllSpace(s)
    ensures r == [] || (!IsSpace(r[0]) && !IsSpace(r[|r| - 1]))
  {
    var t := TrimLeft(s);
    TrimLeftSpec(s);
    TrimRightSpec(t);
    StripEmptyOnlyIfAllSpace(s);
    TrimRight(t)
  }

  lemma StripEmptyOnlyIfAllSpace(s: string)
    ensures TrimRight(TrimLeft(s)) == [] <==> AllSpace(s)
  {
    var t := TrimLeft(s);
    TrimLeftSpec(s);
    TrimRightSpec(t);
    var k := |s| - |t|;
    if TrimRight(t) == [] {
      forall i | 0 <= i < |s| ensures IsSpace(s[i]) {
        if i < k { assert s[..k][i] == s[i]; }
      }
    }
  }

  /** The longest whitespace-free prefix of `s`. */
  function TakeWord(s: string): (w: string)
    ensures |w| <= |s|
  {
    if s == [] || IsSpace(s[0]) then [] else [s[0]] + TakeWord(s[1..])
  }

  /** The word taken is a prefix without whitespace that ends at the end of
      `s` or at a whitespace character, and it is not empty when `s` starts
      with a character that is not whitespace. */
  lemma {:induction false} TakeWordSpec(s: string)
    ensures |TakeWord(s)| <= |s| && TakeWord(s) == s[..|TakeWord(s)|]
    ensures NoSpace(TakeWord(s))
    ensures |TakeWord(s)| == |s| || IsSpace(s[|TakeWord(s)|])
    ensures s != [] && !IsSpace(s[0]) ==> TakeWord(s) != []
    decreases |s|
  {
    if s != [] && !IsSpace(s[0]) {
      TakeWordSpec(s[1..]);
    }
  }

  /** `s.split()`: the maximal runs of non-whitespace characters of `s`, in
      order, with leading, trailing and repeated whitespace discarded. */
  function Split(s: string): seq<string>
    decreases |s|
  {
    var t := TrimLeft(s);
    if t == [] then []
    else
      var w := TakeWord(t);
      TrimLeftSpec(s);
      TakeWordSpec(t);
      [w] + Split(t[|w|..])
  }

  /** Every piece `split()` yields is a word: non-empty, without whitespace. */
  lemma {:induction false} SplitYieldsWords(s: string)
    ensures AllWords(Split(s))
    decreases |s|
  {
    var t := TrimLeft(s);
    if t != [] {
      var w := TakeWord(t);
      TrimLeftSpec(s);
      TakeWordSpec(t);
      var rest := t[|w|..];
      SplitYieldsWords(rest);
      AllWordsCons(w, Split(rest));
    }
  }

  lemma AllWordsCons(w: string, rest: seq<string>)
    requires IsWord(w) && AllWords(rest)
    ensures AllWords([w] + rest)
  {
    assert forall i :: 1 <= i < 1 + |rest| ==> ([w] + rest)[i] == rest[i - 1];
  }

  /** The characters of `s` that are not whitespace, in order. */
  function RemoveSpace(s: string): string
  {
    if s == [] then [] else (if IsSpace(s[0]) then [] else [s[0]]) + RemoveSpace(s[1..])
  }

  /** The concatenation of the words, in order. */
  function Flatten(ws: seq<string>): string
  {
    if ws == [] then [] else ws[0] + Flatten(ws[1..])
  }

  /** `" ".join(ws)`. */
  function Join(ws: seq<string>): string
  {
    if ws == [] then [] else if |ws| == 1 then ws[0] else ws[0] + " " + Join(ws[1..])
  }

  /** `split()` finds no word exactly when the string is all whitespace. */
  lemma SplitEmptyIffAllSpace(s: string)
    ensures Split(s) == [] <==> AllSpace(s)
  {
    var t := TrimLeft(s);
    TrimLeftSpec(s);
    if t == [] {
      assert s[..|s|] == s;
    } else {
      assert s[|s| - |t|] == t[0];
    }
  }

  /** `strip()` and `split()` agree on which strings are blank: the guard
      `not text.strip()` rejects exactly the texts that split into no words. */
  lemma StripEmptyIffSplitEmpty(s: string)
    ensures Strip(s) == [] <==> Split(s) == []
  {
    SplitEmptyIffAllSpace(s);
  }

  lemma {:induction false} RemoveSpaceAppend(a: string, b: string)
    ensures RemoveSpace(a + b) == RemoveSpace(a) + RemoveSpace(b)
    decreases |a|
  {
    if a == [] {
      assert a + b == b;
    } else {
      assert (a + b)[1..] == a[1..] + b;
      RemoveSpaceAppend(a[1..], b);
    }
  }

  lemma {:induction false} RemoveSpaceOfAllSpace(s: string)
    requires AllSpace(s)
    ensures RemoveSpace(s) == []
    decreases |s|
  {
    if s != [] {
      RemoveSpaceOfAllSpace(s[1..]);
    }
  }

  lemma {:induction false} RemoveSpaceOfNoSpace(s: string)
    requires NoSpace(s)
    ensures RemoveSpace(s) == s
    decreases |s|
  {
    if s != [] {
      RemoveSpaceOfNoSpace(s[1..]);
    }
  }

  /** `split()` drops whitespace and nothing else: the words, put back
      together, are the non-whitespace characters of `s` in their order. */
  lemma {:induction false} SplitKeepsNonSpace(s: string)
    ensures Flatten(Split(s)) == RemoveSpace(s)
    decreases |s|
  {
    var t := TrimLeft(s);
    TrimLeftSpec(s);
    RemoveSpaceOfTrimLeft(s);
    if t != [] {
      var w := TakeWord(t);
      TakeWordSpec(t);
      var rest := t[|w|..];
      RemoveSpaceOfWordThenRest(t);
      SplitKeepsNonSpace(rest);
      FlattenCons(w, Split(rest));
    }
  }

  lemma RemoveSpaceOfTrimLeft(s: string)
    ensures RemoveSpace(s) == RemoveSpace(TrimLeft(s))
  {
    var t := TrimLeft(s);
    TrimLeftSpec(s);
    var k := |s| - |t|;
    assert s == s[..k] + t;
    RemoveSpaceAppend(s[..k], t);
    RemoveSpaceOfAllSpace(s[..k]);
  }

  lemma RemoveSpaceOfWordThenRest(t: string)
    ensures RemoveSpace(t) == TakeWord(t) + RemoveSpace(t[|TakeWord(t)|..])
  {
    var w := TakeWord(t);
    TakeWordSpec(t);
    var rest := t[|w|..];
    assert t == w + rest;
    RemoveSpaceAppend(w, rest);
    RemoveSpaceOfNoSpace(w);
  }

  lemma FlattenCons(w: string, ws: seq<string>)
    ensures Flatten([w] + ws) == w + Flatten(ws)
  {
    assert ([w] + ws)[1..] == ws;
  }

  /** The longest whitespace-free prefix of `w + r` is `w` when `w` has no
      whitespace and `r` is empty or starts with whitespace. */
  lemma TakeWordOf(w: string, r: string)
    requires NoSpace(w)
    requires r == [] || IsSpace(r[0])
    ensures TakeWord(w + r) == w
  {
    var v := TakeWord(w + r);
    TakeWordSpec(w + r);
    assert forall i :: 0 <= i < |w| ==> (w + r)[i] == w[i];
    assert |w| < |w + r| ==> (w + r)[|w|] == r[0];
    assert |v| == |w|;
    assert v == (w + r)[..|w|] == w;
  }

  lemma JoinStartsWithFirst(ws: seq<string>)
    requires ws != []
    ensures |ws[0]| <= |Join(ws)| && Join(ws)[..|ws[0]|] == ws[0]
  {
  }

  /** One leading space changes nothing when the rest does not start with whitespace. */
  lemma SplitAfterSpace(j: string)
    requires j == [] || !IsSpace(j[0])
    ensures Split(" " + j) == Split(j)
  {
    assert (" " + j)[1..] == j;
    assert TrimLeft(" " + j) == TrimLeft(j) == j;
  }

  /** A word followed by a space and then a string that does not start with
      whitespace splits into that word followed by the string's words. */
  lemma SplitWordThenSpace(w: string, j: string)
    requires IsWord(w)
    requires j == [] || !IsSpace(j[0])
    ensures Split(w + " " + j) == [w] + Split(j)
  {
    var s := w + " " + j;
    assert s == w + (" " + j);
    assert TrimLeft(s) == s;
    TakeWordOf(w, " " + j);
    assert s[|w|..] == " " + j;
    SplitAfterSpace(j);
  }

  /** `split()` undoes `" ".join(...)` on words: joining words with single
      spaces and splitting the result gives back the same words. */
  lemma {:induction false} SplitJoin(ws: seq<string>)
    requires AllWords(ws)
    ensures Split(Join(ws)) == ws
    decreases |ws|
  {
    if ws == [] {
    } else if |ws| == 1 {
      var w := ws[0];
      assert w + [] == w;
      TakeWordOf(w, []);
      assert w[|w|..] == [];
    } else {
      var w, rest := ws[0], ws[1..];
      assert IsWord(w) && IsWord(rest[0]);
      assert AllWords(rest) by {
        forall i | 0 <= i < |rest| ensures IsWord(rest[i]) {
          assert rest[i] == ws[i + 1];
        }
      }
      var j := Join(rest);
      assert Join(ws) == w + " " + j;
      JoinStartsWithFirst(rest);
      assert j[0] == rest[0][0];
      SplitWordThenSpace(w, j);
      SplitJoin(rest);
      assert [w] + rest == ws;
    }
  }

  /** `gaps[0] + ws[0] + gaps[1] + ws[1] + ... + ws[n-1] + gaps[n]`: the words
      `ws` laid out with the separators `gaps` before, between and after them. */
  function Spread(gaps: seq<string>, ws: seq<string>): string
    requires |gaps| == |ws| + 1
  {
    if ws == [] then gaps[0] else gaps[0] + ws[0] + Spread(gaps[1..], ws[1..])
  }

  /** Separators `split()` discards: whitespace only, and non-empty between two
      words; the leading and trailing ones may be empty. */
  predicate Gaps(gaps: seq<string>, n: nat)
  {
    && |gaps| == n + 1
    && (forall i :: 0 <= i < |gaps| ==> AllSpace(gaps[i]))
    && (forall i :: 0 < i < n ==> gaps[i] != [])
  }

  /** Leading whitespace does not change what `lstrip()` returns. */
  lemma {:induction false} TrimLeftSkipsSpace(g: string, j: string)
    requires AllSpace(g)
    ensures TrimLeft(g + j) == TrimLeft(j)
    decreases |g|
  {
    if g == [] {
      assert g + j == j;
    } else {
      assert (g + j)[0] == g[0];
      assert (g + j)[1..] == g[1..] + j;
      TrimLeftSkipsSpace(g[1..], j);
    }
  }

  /** A word followed by nothing or by whitespace is split off as the first word. */
  lemma SplitWordThen(w: string, r: string)
    requires IsWord(w)
    requires r == [] || IsSpace(r[0])
    ensures Split(w + r) == [w] + Split(r)
  {
    var s := w + r;
    assert s[0] == w[0];
    assert TrimLeft(s) == s;
    TakeWordOf(w, r);
    assert s[|w|..] == r;
  }

  /** A spread of words starts with its first gap, or with its first word when
      that gap is empty. */
  lemma SpreadStart(gaps: seq<string>, ws: seq<string>)
    requires |gaps| == |ws| + 1 && gaps[0] != []
    ensures Spread(gaps, ws) != [] && Spread(gaps, ws)[0] == gaps[0][0]
  {
  }

  /** `split()` recovers the words from any layout of them with whitespace
      gaps: leading, trailing and repeated whitespace of any kind. */
  lemma {:induction false} SplitSpread(gaps: seq<string>, ws: seq<string>)
    requires AllWords(ws) && Gaps(gaps, |ws|)
    ensures Split(Spread(gaps, ws)) == ws
    decreases |ws|
  {
    if ws == [] {
      SplitEmptyIffAllSpace(gaps[0]);
    } else {
      var w, rest := ws[0], Spread(gaps[1..], ws[1..]);
      assert AllWords(ws[1..]) by {
        forall i | 0 <= i < |ws[1..]| ensures IsWord(ws[1..][i]) {
          assert ws[1..][i] == ws[i + 1];
        }
      }
      assert Gaps(gaps[1..], |ws[1..]|) by {
        forall i | 0 <= i < |gaps[1..]| ensures AllSpace(gaps[1..][i]) {
          assert gaps[1..][i] == gaps[i + 1];
        }
        forall i | 0 < i < |ws[1..]| ensures gaps[1..][i] != [] {
          assert gaps[1..][i] == gaps[i + 1];
        }
      }
      assert rest == [] || IsSpace(rest[0]) by {
        if |ws| == 1 {
          assert rest == gaps[1];
        } else if rest != [] {
          assert gaps[1] != [];
          SpreadStart(gaps[1..], ws[1..]);
        }
      }
      assert Spread(gaps, ws) == gaps[0] + (w + rest);
      TrimLeftSkipsSpace(gaps[0], w + rest);
      SplitWordThen(w, rest);
      SplitSpread(gaps[1..], ws[1..]);
      assert [w] + ws[1..] == ws;
    }
  }

  lemma SpreadCons(g: string, w: string, gs: seq<string>, ws: seq<string>)
    requires |gs| == |ws| + 1
    ensures Spread([g] + gs, [w] + ws) == g + w + Spread(gs, ws)
  {
    assert ([g] + gs)[1..] == gs;
    assert ([w] + ws)[1..] == ws;
  }

  lemma GapsCons(g: string, gs: seq<string>, n: nat)
    requires AllSpace(g) && Gaps(gs, n)
    requires n > 0 ==> gs[0] != []
    ensures Gaps([g] + gs, n + 1)
  {
    assert forall i :: 0 < i < |gs| + 1 ==> ([g] + gs)[i] == gs[i - 1];
  }

  /** Conversely, every string is its words laid out with whitespace gaps, so
      `Split(s)` is the one list of words `s` is made of. */
  lemma {:induction false} SplitDecomposes(s: string) returns (gaps: seq<string>)
    ensures Gaps(gaps, |Split(s)|) && s == Spread(gaps, Split(s))
    ensures s != [] && IsSpace(s[0]) ==> gaps[0] != []
    decreases |s|
  {
    var t := TrimLeft(s);
    TrimLeftSpec(s);
    var g0 := s[..|s| - |t|];
    assert s == g0 + t;
    if t == [] {
      gaps := [s];
    } else {
      var w := TakeWord(t);
      TakeWordSpec(t);
      var rest := t[|w|..];
      assert t == w + rest;
      var gs := SplitDecomposes(rest);
      var ws := Split(rest);
      assert Split(s) == [w] + ws;
      gaps := [g0] + gs;
      SpreadCons(g0, w, gs, ws);
      GapsCons(g0, gs, |ws|);
      assert g0 != [] <== s != [] && IsSpace(s[0]);
    }
  }
}
