/**
 * The string operations the search query relies on: lower-casing,
 * substring containment (`includes`) and splitting on one separator
 * character (`split`), with the laws that pin each of them down.
 */
module Text {

  /** Lower-cases one character; only the ASCII letters A-Z are mapped. */
  function LowerChar(ch: char): (r: char)
    ensures 'A' <= ch <= 'Z' ==> 'a' <= r <= 'z' && r as int - ch as int == 32
    ensures !('A' <= ch <= 'Z') ==> r == ch
  {
    if 'A' <= ch <= 'Z' then (ch as int + 32) as char else ch
  }

  /** `s.toLowerCase()`, character by character. */
  function Lower(s: string): (r: string)
    ensures |r| == |s|
    ensures forall i :: 0 <= i < |s| ==> r[i] == LowerChar(s[i])
  {
    seq(|s|, i requires 0 <= i < |s| => LowerChar(s[i]))
  }

  /** Lower-casing twice is lower-casing once. */
  lemma LowerIdempotent(s: string)
    ensures Lower(Lower(s)) == Lower(s)
  {
  }

  /** Lower-casing distributes over concatenation. */
  lemma LowerConcat(a: string, b: string)
    ensures Lower(a + b) == Lower(a) + Lower(b)
  {
    var l, r := Lower(a + b), Lower(a) + Lower(b);
    assert |l| == |r|;
    forall i | 0 <= i < |l| ensures l[i] == r[i] {
      if i < |a| {
        assert (a + b)[i] == a[i];
      } else {
        assert (a + b)[i] == b[i - |a|];
      }
    }
  }

  /** `t` occurs in `s` starting at index `i`. */
  ghost predicate OccursAt(s: string, t: string, i: int)
  {
    0 <= i && i + |t| <= |s| && s[i..i + |t|] == t
  }

  /** `s.includes(t)`: `t` is a substring of `s` (the empty string always is). */
  function Includes(s: string, t: string): (r: bool)
    ensures r <==> exists i :: OccursAt(s, t, i)
    decreases |s|
  {
    if |t| <= |s| && s[..|t|] == t then
      assert OccursAt(s, t, 0);
      true
    else if |s| == 0 then
      false
    else
      var rest := Includes(s[1..], t);
      if rest then
        assert exists i :: OccursAt(s, t, i) by {
          var j :| OccursAt(s[1..], t, j);
          assert s[1..][j..j + |t|] == s[j + 1..j + 1 + |t|];
          assert OccursAt(s, t, j + 1);
        }
        true
      else
        assert forall i :: OccursAt(s, t, i) ==> i >= 1 && OccursAt(s[1..], t, i - 1) by {
          forall i | OccursAt(s, t, i) ensures i >= 1 && OccursAt(s[1..], t, i - 1) {
            if i != 0 {
              assert s[1..][i - 1..i - 1 + |t|] == s[i..i + |t|];
            }
          }
        }
        false
  }

  /** The empty string is included in every string. */
  lemma IncludesEmpty(s: string)
    ensures Includes(s, "")
  {
    assert OccursAt(s, "", 0);
  }

  /** `s.split(sep)` for a one-character separator: the pieces between separators, at least one. */
  function Split(s: string, sep: char): (r: seq<string>)
    ensures |r| >= 1
    ensures forall k :: 0 <= k < |r| ==> sep !in r[k]
  {
    if |s| == 0 then
      [""]
    else
      var tail := Split(s[1..], sep);
      assert s == [s[0]] + s[1..];
      if s[0] == sep then
        [""] + tail
      else
        [[s[0]] + tail[0]] + tail[1..]
  }

  /** Every character of every piece is a character of the split string. */
  lemma {:induction false} SplitPieceChars(s: string, sep: char)
    ensures forall k, c :: 0 <= k < |Split(s, sep)| && c in Split(s, sep)[k] ==> c in s
  {
    if |s| > 0 {
      SplitPieceChars(s[1..], sep);
      assert s == [s[0]] + s[1..];
    }
  }

  /** Joins pieces with `sep` between them: the inverse of Split. */
  function Join(pieces: seq<string>, sep: char): string
  {
    if |pieces| == 0 then ""
    else if |pieces| == 1 then pieces[0]
    else pieces[0] + [sep] + Join(pieces[1..], sep)
  }

  /** Three pieces joined: the first, the separator, the second, the separator, the third. */
  lemma JoinThree(a: string, b: string, c: string, sep: char)
    ensures Join([a, b, c], sep) == a + [sep] + b + [sep] + c
  {
    assert [a, b, c][1..] == [b, c];
    assert [b, c][1..] == [c];
    assert Join([b, c], sep) == b + [sep] + c;
    assert Join([a, b, c], sep) == a + [sep] + (b + [sep] + c);
    assert a + [sep] + (b + [sep] + c) == a + [sep] + b + [sep] + c;
  }

  /** There is one more piece than there are separators. */
  lemma {:induction false} SplitPieceCount(s: string, sep: char)
    ensures |Split(s, sep)| == 1 + multiset(s)[sep]
  {
    if |s| > 0 {
      SplitPieceCount(s[1..], sep);
      assert s == [s[0]] + s[1..];
      assert multiset(s)[sep] == multiset([s[0]])[sep] + multiset(s[1..])[sep];
    }
  }

  /** Splitting then joining gives back the string. */
  lemma {:induction false} JoinSplit(s: string, sep: char)
    ensures Join(Split(s, sep), sep) == s
  {
    if |s| > 0 {
      var tail := Split(s[1..], sep);
      JoinSplit(s[1..], sep);
      if s[0] == sep {
        assert Split(s, sep) == [""] + tail;
      } else {
        var r := Split(s, sep);
        assert r == [[s[0]] + tail[0]] + tail[1..];
        if |tail| == 1 {
          assert Join(r, sep) == [s[0]] + tail[0];
        } else {
          assert r[1..] == tail[1..];
          assert Join(r, sep) == [s[0]] + tail[0] + [sep] + Join(tail[1..], sep);
          assert Join(tail, sep) == tail[0] + [sep] + Join(tail[1..], sep);
        }
      }
    }
  }

  /** A string without the separator splits into itself alone. */
  lemma {:induction false} SplitWithoutSeparator(w: string, sep: char)
    requires sep !in w
    ensures Split(w, sep) == [w]
  {
    if |w| > 0 {
      SplitWithoutSeparator(w[1..], sep);
      assert [w[0]] + w[1..] == w;
    }
  }

  /** A separator after a separator-free prefix ends the first piece there. */
  lemma {:induction false} SplitAfterWord(w: string, sep: char, rest: string)
    requires sep !in w
    ensures Split(w + [sep] + rest, sep) == [w] + Split(rest, sep)
  {
    if |w| == 0 {
      assert w + [sep] + rest == [sep] + rest;
      assert ([sep] + rest)[1..] == rest;
    } else {
      var s := w + [sep] + rest;
      assert s[1..] == w[1..] + [sep] + rest;
      SplitAfterWord(w[1..], sep, rest);
      assert [w[0]] + w[1..] == w;
    }
  }

  /** Two separators in a row leave an empty piece (not the first one). */
  lemma {:induction false} SplitDoubledSeparator(x: string, sep: char, y: string)
    ensures "" in Split(x + [sep, sep] + y, sep)[1..]
  {
    var s := x + [sep, sep] + y;
    if |x| == 0 {
      assert s == [sep] + ([sep] + y);
      assert s[1..] == [sep] + y;
      assert ([sep] + y)[1..] == y;
      assert Split(s, sep)[1..] == Split([sep] + y, sep);
      assert Split([sep] + y, sep)[0] == "";
    } else {
      assert s[1..] == x[1..] + [sep, sep] + y;
      SplitDoubledSeparator(x[1..], sep, y);
      var tail := Split(s[1..], sep);
      if s[0] == sep {
        assert Split(s, sep)[1..] == tail;
        assert "" in tail[1..];
      } else {
        assert Split(s, sep)[1..] == tail[1..];
      }
    }
  }

  /** A trailing separator leaves an empty last piece. */
  lemma {:induction false} SplitTrailingSeparator(x: string, sep: char)
    ensures var r := Split(x + [sep], sep); |r| >= 2 && r[|r| - 1] == ""
  {
    var s := x + [sep];
    if |x| == 0 {
      assert s == [sep];
      assert s[1..] == "";
    } else {
      assert s[1..] == x[1..] + [sep];
      SplitTrailingSeparator(x[1..], sep);
    }
  }
}
