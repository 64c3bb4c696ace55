/**
  The slice of Go's `strings` package the router relies on, specialised to a
  single-character separator / cutset (the router only ever uses `"/"`).
  Strings are `seq<char>`.
 */
module GoStrings {

  /** Number of occurrences of `c` in `s`. */
  function Count(s: string, c: char): nat
  {
    if |s| == 0 then 0
    else (if s[0] == c then 1 else 0) + Count(s[1..], c)
  }

  /** `strings.HasPrefix(s, [c])`. */
  predicate HasPrefix(s: string, c: char)
  {
    |s| > 0 && s[0] == c
  }

  /** `strings.TrimLeft(s, [c])`: drop every leading `c`. */
  function TrimLeft(s: string, c: char): (r: string)
    ensures |r| <= |s|
    ensures forall i :: 0 <= i < |s| - |r| ==> s[i] == c
    ensures !HasPrefix(r, c)
  {
    if |s| > 0 && s[0] == c then TrimLeft(s[1..], c) else s
  }

  /** What `TrimLeft` keeps is a suffix of its input, stated one index at a
      time. Kept out of the function's contract: an index-shifting quantifier
      there feeds on itself whenever nothing is trimmed. */
  lemma {:induction false} TrimLeftAt(s: string, c: char, i: nat)
    requires i < |TrimLeft(s, c)|
    ensures TrimLeft(s, c)[i] == s[|s| - |TrimLeft(s, c)| + i]
  {
    if |s| > 0 && s[0] == c {
      TrimLeftAt(s[1..], c, i);
    }
  }

  /** `strings.TrimRight(s, [c])`: drop every trailing `c`. */
  function TrimRight(s: string, c: char): (r: string)
    ensures |r| <= |s|
    ensures forall i :: 0 <= i < |r| ==> r[i] == s[i]
    ensures forall i :: |r| <= i < |s| ==> s[i] == c
    ensures |r| > 0 ==> r[|r| - 1] != c
  {
    if |s| > 0 && s[|s| - 1] == c then TrimRight(s[..|s| - 1], c) else s
  }

  /** `r` is `s` with exactly `k` copies of `c` cut from the front and the
      rest of the cut taken from the back, all of them `c`. */
  predicate Padded(s: string, r: string, c: char, k: int)
  {
    && 0 <= k <= |s| - |r|
    && (forall i :: 0 <= i < |r| ==> r[i] == s[k + i])
    && (forall i :: 0 <= i < k ==> s[i] == c)
    && (forall i :: k + |r| <= i < |s| ==> s[i] == c)
  }

  /** `strings.Trim(s, [c])`: drop every leading and every trailing `c`. */
  function Trim(s: string, c: char): (r: string)
    ensures |r| <= |s|
    ensures |r| > 0 ==> r[0] != c && r[|r| - 1] != c
  {
    TrimRight(TrimLeft(s, c), c)
  }

  /** `Trim` keeps a middle stretch of its input and cuts only `c`s. */
  lemma TrimPadded(s: string, c: char)
    ensures exists k :: Padded(s, Trim(s, c), c, k)
  {
    var l := TrimLeft(s, c);
    var r := Trim(s, c);
    var k := |s| - |l|;
    forall i | 0 <= i < |r| ensures r[i] == s[k + i] {
      TrimLeftAt(s, c, i);
    }
    forall i | k + |r| <= i < |s| ensures s[i] == c {
      TrimLeftAt(s, c, i - k);
    }
    assert Padded(s, r, c, k);
  }

  /**
    `strings.Join(xs, [sep])`: the elements with `sep` between neighbours;
    the empty list joins to "".
   */
  function Join(xs: seq<string>, sep: char): string
  {
    if |xs| == 0 then ""
    else if |xs| == 1 then xs[0]
    else xs[0] + [sep] + Join(xs[1..], sep)
  }

  /** No element of `xs` contains the separator. */
  predicate SepFree(xs: seq<string>, sep: char)
  {
    forall i :: 0 <= i < |xs| ==> sep !in xs[i]
  }

  /**
    `strings.Split(s, [sep])`: the maximal separator-free pieces of `s`.
    Like Go, a string without separator yields `[s]`, so `""` yields `[""]`,
    and a leading or trailing separator yields an empty first or last piece.
   */
  function Split(s: string, sep: char): (r: seq<string>)
    ensures |r| == Count(s, sep) + 1
    ensures SepFree(r, sep)
    ensures Join(r, sep) == s
  {
    if |s| == 0 then [""]
    else
      var rest := Split(s[1..], sep);
      if s[0] == sep then
        assert Join([""] + rest, sep) == [sep] + Join(rest, sep) by {
          assert ([""] + rest)[1..] == rest;
        }
        assert s == [sep] + s[1..];
        [""] + rest
      else
        var r := [[s[0]] + rest[0]] + rest[1..];
        assert r[1..] == rest[1..];
        assert Join(r, sep) == [s[0]] + Join(rest, sep) by {
          if |rest| > 1 {
            assert rest[1..] == rest[1..];
            assert Join(rest, sep) == rest[0] + [sep] + Join(rest[1..], sep);
          }
        }
        assert s == [s[0]] + s[1..];
        r
  }

  /** Splitting undoes joining: a non-empty list of separator-free pieces
      is recovered exactly from its join. */
  lemma {:induction false} SplitJoin(xs: seq<string>, sep: char)
    requires |xs| > 0 && SepFree(xs, sep)
    ensures Split(Join(xs, sep), sep) == xs
  {
    if |xs| == 1 {
      SplitSepFree(xs[0], sep);
    } else {
      SplitJoin(xs[1..], sep);
      SplitAppend(xs[0], Join(xs[1..], sep), sep);
      SplitSepFree(xs[0], sep);
    }
  }

  /** A separator-free string splits to itself. */
  lemma {:induction false} SplitSepFree(s: string, sep: char)
    requires sep !in s
    ensures Split(s, sep) == [s]
  {
    if |s| > 0 {
      SplitSepFree(s[1..], sep);
      assert [s[0]] + s[1..] == s;
    }
  }

  /** Splitting around one separator concatenates the two splits, gluing
      nothing: `Split(a + sep + b) == Split(a) + Split(b)`. */
  lemma {:induction false} SplitAppend(a: string, b: string, sep: char)
    ensures Split(a + [sep] + b, sep) == Split(a, sep) + Split(b, sep)
  {
    if |a| == 0 {
      assert a + [sep] + b == [sep] + b;
      assert ([sep] + b)[1..] == b;
    } else {
      var s := a + [sep] + b;
      assert s[0] == a[0];
      assert s[1..] == a[1..] + [sep] + b;
      SplitAppend(a[1..], b, sep);
    }
  }

  /** Appending one separator adds exactly one empty trailing piece. */
  lemma TrailingSeparator(s: string, sep: char)
    ensures Split(s + [sep], sep) == Split(s, sep) + [""]
  {
    SplitAppend(s, "", sep);
    assert s + [sep] + "" == s + [sep];
  }

  /** Join of a list extended by one element. */
  lemma {:induction false} JoinSnoc(xs: seq<string>, x: string, sep: char)
    requires |xs| > 0
    ensures Join(xs + [x], sep) == Join(xs, sep) + [sep] + x
  {
    if |xs| == 1 {
      assert (xs + [x])[1..] == [x];
    } else {
      assert (xs + [x])[1..] == xs[1..] + [x];
      JoinSnoc(xs[1..], x, sep);
    }
  }

  /** Every character of `s` is `c`. */
  predicate AllOf(s: string, c: char)
  {
    forall i :: 0 <= i < |s| ==> s[i] == c
  }

  /** `TrimLeft` empties exactly the strings made only of the cutset. */
  lemma TrimLeftEmpty(s: string, c: char)
    ensures TrimLeft(s, c) == "" <==> AllOf(s, c)
  {
    var r := TrimLeft(s, c);
    if |r| > 0 {
      TrimLeftAt(s, c, 0);
      assert s[|s| - |r|] != c;
    }
  }

  /** Appending a cutset character after a string that does not trim away
      entirely survives `TrimLeft`; after one that does, it is trimmed too. */
  lemma {:induction false} TrimLeftSnoc(s: string, c: char)
    ensures TrimLeft(s + [c], c) == (if AllOf(s, c) then "" else TrimLeft(s, c) + [c])
  {
    if |s| == 0 {
      assert s + [c] == [c];
      assert [c][1..] == [];
    } else if s[0] == c {
      assert (s + [c])[1..] == s[1..] + [c];
      assert TrimLeft(s + [c], c) == TrimLeft(s[1..] + [c], c);
      TrimLeftSnoc(s[1..], c);
      assert AllOf(s, c) <==> AllOf(s[1..], c) by {
        if AllOf(s[1..], c) {
          forall i | 0 <= i < |s| ensures s[i] == c {
            if i > 0 { assert s[i] == s[1..][i - 1]; }
          }
        }
      }
    } else {
      assert (s + [c])[0] != c;
      assert !AllOf(s, c);
    }
  }

  /** `TrimRight` ignores one more trailing cutset character. */
  lemma TrimRightSnoc(s: string, c: char)
    ensures TrimRight(s + [c], c) == TrimRight(s, c)
  {
    assert (s + [c])[..|s|] == s;
  }

  /** `Trim` ignores one more trailing cutset character. */
  lemma TrimSnoc(s: string, c: char)
    ensures Trim(s + [c], c) == Trim(s, c)
  {
    TrimLeftSnoc(s, c);
    TrimLeftEmpty(s, c);
    if !AllOf(s, c) {
      TrimRightSnoc(TrimLeft(s, c), c);
    }
  }

  /** On a string that does not end in the cutset character, `Trim` and
      `TrimLeft` agree. */
  lemma TrimNoTrailing(s: string, c: char)
    requires |s| == 0 || s[|s| - 1] != c
    ensures Trim(s, c) == TrimLeft(s, c)
  {
    var l := TrimLeft(s, c);
    if |l| > 0 {
      TrimLeftAt(s, c, |l| - 1);
      assert l[|l| - 1] == s[|s| - 1];
    }
  }
}
