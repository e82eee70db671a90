/** Java's `String.split` with a one-character literal separator and no limit, as the collector uses it
    on samples (`","`) and on the broker's throughput text (`" "`). */
module Text {

  /** The text before the first `c` (all of `s` when it has none). */
  function UpTo(s: string, c: char): (r: string)
    ensures r <= s && c !in r
    ensures |r| < |s| ==> s[|r|] == c
  {
    if |s| == 0 || s[0] == c then "" else [s[0]] + UpTo(s[1..], c)
  }

  /** The text before the first separator of `a + [c] + rest` is `a` when `a` has none. */
  lemma {:induction false} UpToJoin(a: string, c: char, rest: string)
    requires c !in a
    ensures UpTo(a + [c] + rest, c) == a
  {
    if |a| > 0 {
      assert (a + [c] + rest)[1..] == a[1..] + [c] + rest;
      UpToJoin(a[1..], c, rest);
    }
  }

  /** Every piece of `s` between separators, empty pieces included: one more than the separators. */
  function Fields(s: string, c: char): (r: seq<string>)
    ensures |r| >= 1
    ensures forall i :: 0 <= i < |r| ==> c !in r[i]
  {
    if |s| == 0 then [""]
    else if s[0] == c then [""] + Fields(s[1..], c)
    else
      var rest := Fields(s[1..], c);
      [[s[0]] + rest[0]] + rest[1..]
  }

  /** The pieces joined back with the separator between them. */
  function Join(fs: seq<string>, c: char): string
    requires |fs| >= 1
  {
    if |fs| == 1 then fs[0] else fs[0] + [c] + Join(fs[1..], c)
  }

  /** Splitting at every separator loses nothing: joining the pieces gives the text back. */
  lemma {:induction false} JoinFields(s: string, c: char)
    ensures Join(Fields(s, c), c) == s
  {
    if |s| > 0 {
      JoinFields(s[1..], c);
      var rest := Fields(s[1..], c);
      if s[0] == c {
        assert Fields(s, c)[1..] == rest;
        assert s == "" + [c] + s[1..];
      } else {
        var fs := Fields(s, c);
        if |rest| == 1 {
          assert fs == [[s[0]] + rest[0]];
          assert s == [s[0]] + s[1..];
        } else {
          assert fs[1..] == rest[1..];
          assert Join(rest, c) == rest[0] + [c] + Join(rest[1..], c);
          assert s == [s[0]] + s[1..];
        }
      }
    }
  }

  lemma {:induction false} FieldsFirst(s: string, c: char)
    ensures Fields(s, c)[0] == UpTo(s, c)
  {
    if |s| > 0 && s[0] != c {
      FieldsFirst(s[1..], c);
    }
  }

  predicate AllSeparators(s: string, c: char) {
    forall i :: 0 <= i < |s| ==> s[i] == c
  }

  predicate AllEmpty(fs: seq<string>) {
    forall i :: 0 <= i < |fs| ==> fs[i] == ""
  }

  /** Every piece is empty exactly when the text is separators only. */
  lemma {:induction false} FieldsAllEmpty(s: string, c: char)
    ensures AllEmpty(Fields(s, c)) <==> AllSeparators(s, c)
  {
    if |s| > 0 {
      FieldsAllEmpty(s[1..], c);
      var fs := Fields(s, c);
      var rest := Fields(s[1..], c);
      if s[0] == c {
        assert fs[1..] == rest;
        assert AllEmpty(fs) <==> AllEmpty(rest);
        assert AllSeparators(s, c) <==> AllSeparators(s[1..], c) by {
          if AllSeparators(s[1..], c) {
            forall i | 0 <= i < |s| ensures s[i] == c {
              if i > 0 { assert s[i] == s[1..][i - 1]; }
            }
          }
        }
      } else {
        assert fs[0] != "";
        assert s[0] != c;
      }
    }
  }

  /** Java's removal of trailing empty strings from the result of a split without a limit. */
  function DropTrailingEmpty(fs: seq<string>): (r: seq<string>)
    ensures r <= fs
    ensures |r| > 0 ==> r[|r| - 1] != ""
    ensures forall i :: |r| <= i < |fs| ==> fs[i] == ""
  {
    if |fs| == 0 || fs[|fs| - 1] != "" then fs else DropTrailingEmpty(fs[..|fs| - 1])
  }

  /** `s.split(String.valueOf(c))`: a text with no separator splits into itself, so `"".split(" ")` has
      one element; otherwise all pieces, less the trailing empty ones. */
  function Split(s: string, c: char): (r: seq<string>)
    ensures forall i :: 0 <= i < |r| ==> c !in r[i]
    ensures c !in s ==> r == [s]
    ensures c in s ==> r <= Fields(s, c) && forall i :: |r| <= i < |Fields(s, c)| ==> Fields(s, c)[i] == ""
    ensures c in s && |r| > 0 ==> r[|r| - 1] != ""
  {
    if c !in s then [s] else DropTrailingEmpty(Fields(s, c))
  }

  /** A split has no element exactly when the text is non-empty and separators only. */
  lemma SplitEmpty(s: string, c: char)
    ensures |Split(s, c)| == 0 <==> |s| > 0 && AllSeparators(s, c)
  {
    if c in s {
      var fs := Fields(s, c);
      FieldsAllEmpty(s, c);
      if |DropTrailingEmpty(fs)| == 0 {
        assert AllEmpty(fs);
      }
    } else if |s| > 0 {
      assert s[0] != c;
    }
  }

  /** The first element of a non-empty split is the text before the first separator. */
  lemma SplitFirst(s: string, c: char)
    requires |Split(s, c)| > 0
    ensures Split(s, c)[0] == UpTo(s, c)
  {
    FieldsFirst(s, c);
  }
}
