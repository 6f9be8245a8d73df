/** Strings as sequences of code points (Go's `[]rune` view of a string),
    with the prefix/suffix tests and the single-separator split that the
    dictionary code relies on. */
module Text {

  /** Go's `strings.HasPrefix` on the rune view. */
  predicate HasPrefix(s: string, p: string) {
    |p| <= |s| && s[..|p|] == p
  }

  /** Go's `strings.HasSuffix` on the rune view. */
  predicate HasSuffix(s: string, p: string) {
    |p| <= |s| && s[|s| - |p|..] == p
  }

  /** `u` is a suffix of `s` (the empty string and `s` itself included). */
  predicate IsSuffix(u: string, s: string) {
    |u| <= |s| && s[|s| - |u|..] == u
  }

  /** A byte of an encoded dictionary file. */
  newtype byte = b: int | 0 <= b < 256

  /** Go's `strings.Split(s, sep)` / `bytes.Split(s, sep)` for a one-element
      separator: `n` separators give `n + 1` fields, the empty string gives one
      empty field. */
  function SplitOn<T(==)>(s: seq<T>, sep: T): (fields: seq<seq<T>>)
    ensures |fields| >= 1
    ensures forall i :: 0 <= i < |fields| ==> sep !in fields[i]
    decreases |s|
  {
    if s == [] then [[]]
    else
      var rest := SplitOn(s[1..], sep);
      if s[0] == sep then [[]] + rest
      else [[s[0]] + rest[0]] + rest[1..]
  }

  /** The inverse of `SplitOn`: the fields glued back with the separator. */
  function JoinWith<T>(fields: seq<seq<T>>, sep: T): (s: seq<T>)
    requires |fields| >= 1
    decreases |fields|
  {
    if |fields| == 1 then fields[0] else fields[0] + [sep] + JoinWith(fields[1..], sep)
  }

  /** Splitting and joining again gives back the original text. */
  lemma {:induction false} JoinSplit<T>(s: seq<T>, sep: T)
    ensures JoinWith(SplitOn(s, sep), sep) == s
    decreases |s|
  {
    if s != [] {
      JoinSplit(s[1..], sep);
      var rest := SplitOn(s[1..], sep);
      if s[0] == sep {
        assert SplitOn(s, sep)[1..] == rest;
      } else {
        var f := SplitOn(s, sep);
        if |rest| == 1 {
          assert f == [[s[0]] + rest[0]];
        } else {
          assert f[1..] == rest[1..];
          assert JoinWith(rest, sep) == rest[0] + [sep] + JoinWith(rest[1..], sep);
        }
      }
    }
  }

  /** Splitting a text made of separator-free fields joined by the separator
      gives back exactly those fields. */
  lemma {:induction false} SplitJoin<T>(fields: seq<seq<T>>, sep: T)
    requires |fields| >= 1
    requires forall i :: 0 <= i < |fields| ==> sep !in fields[i]
    ensures SplitOn(JoinWith(fields, sep), sep) == fields
    decreases |fields|, |fields[0]|
  {
    if |fields| == 1 {
      SplitNoSep(fields[0], sep);
    } else if fields[0] == [] {
      var tail := JoinWith(fields[1..], sep);
      assert JoinWith(fields, sep) == [sep] + tail;
      SplitJoin(fields[1..], sep);
      assert ([sep] + tail)[1..] == tail;
      assert fields == [[]] + fields[1..];
    } else {
      var f0 := fields[0];
      var shorter := [f0[1..]] + fields[1..];
      assert shorter[1..] == fields[1..];
      assert sep !in f0[1..] by {
        forall k | 0 <= k < |f0[1..]| ensures f0[1..][k] != sep {
          assert f0[1..][k] == f0[k + 1];
        }
      }
      SplitJoin(shorter, sep);
      var whole := JoinWith(fields, sep);
      assert whole == [f0[0]] + JoinWith(shorter, sep);
      assert whole[1..] == JoinWith(shorter, sep);
      assert whole[0] == f0[0] && f0[0] != sep;
      var rest := SplitOn(whole[1..], sep);
      assert rest == shorter;
      assert [f0[0]] + f0[1..] == f0;
      assert [[f0[0]] + rest[0]] + rest[1..] == fields;
    }
  }

  /** A separator-free text is a single field. */
  lemma {:induction false} SplitNoSep<T>(s: seq<T>, sep: T)
    requires sep !in s
    ensures SplitOn(s, sep) == [s]
    decreases |s|
  {
    if s != [] {
      assert sep !in s[1..] by {
        forall k | 0 <= k < |s[1..]| ensures s[1..][k] != sep {
          assert s[1..][k] == s[k + 1];
        }
      }
      SplitNoSep(s[1..], sep);
      assert [s[0]] + s[1..] == s;
    }
  }

  /** Splitting gives at least two fields exactly when the separator
      occurs. */
  lemma {:induction false} SplitMany<T>(s: seq<T>, sep: T)
    ensures |SplitOn(s, sep)| >= 2 <==> sep in s
    decreases |s|
  {
    if s != [] {
      SplitMany(s[1..], sep);
      assert sep in s <==> s[0] == sep || sep in s[1..];
    }
  }

  /** The first field is empty exactly when the text is empty or starts
      with the separator. */
  lemma SplitFirstEmpty<T>(s: seq<T>, sep: T)
    ensures SplitOn(s, sep)[0] == [] <==> s == [] || s[0] == sep
  {
  }

  /** A text that is empty or ends with the separator splits into fields
      the last of which is empty. */
  lemma {:induction false} SplitLastEmpty<T>(s: seq<T>, sep: T)
    requires s == [] || s[|s| - 1] == sep
    ensures var fields := SplitOn(s, sep); fields[|fields| - 1] == []
    decreases |s|
  {
    if s != [] {
      var t := s[1..];
      if t != [] {
        assert t[|t| - 1] == s[|s| - 1];
        SplitLastEmpty(t, sep);
        SplitMany(t, sep);
        assert sep in t by {
          assert t[|t| - 1] == sep;
        }
      }
    }
  }

  /** A sequence that starts with `b + [x]` starts with `b`. */
  lemma PrefixOfPrefix<T>(a: seq<T>, b: seq<T>, x: T)
    requires |b + [x]| <= |a| && a[..|b + [x]|] == b + [x]
    ensures |b| <= |a| && a[..|b|] == b
  {
    assert a[..|b|] == a[..|b + [x]|][..|b|];
  }

  /** Appending a non-empty text is appending its first element, then
      the rest. */
  lemma AppendFirst<T>(a: seq<T>, s: seq<T>)
    requires s != []
    ensures a + s == (a + [s[0]]) + s[1..]
  {
  }

  /** A suffix of a suffix is a suffix. */
  lemma SuffixTrans(u: string, v: string, s: string)
    requires IsSuffix(u, v) && IsSuffix(v, s)
    ensures IsSuffix(u, s)
  {
    assert s[|s| - |u|..] == s[|s| - |v|..][|v| - |u|..];
  }

  /** Two suffixes of one text: the shorter is a suffix of the longer. */
  lemma SuffixOfLonger(u: string, v: string, s: string)
    requires IsSuffix(u, s) && IsSuffix(v, s) && |u| <= |v|
    ensures IsSuffix(u, v)
  {
    assert v[|v| - |u|..] == s[|s| - |v|..][|v| - |u|..];
  }

  /** A suffix shorter than the text is a suffix of the text minus its first
      code point. */
  lemma SuffixOfTail(u: string, s: string)
    requires IsSuffix(u, s) && |u| < |s|
    ensures IsSuffix(u, s[1..])
  {
    assert s[1..][|s[1..]| - |u|..] == s[|s| - |u|..];
  }

  /** The text minus its first code point is a suffix of the text. */
  lemma TailIsSuffix(s: string)
    requires |s| > 0
    ensures IsSuffix(s[1..], s)
  {
  }

  /** Every text ends with itself. */
  lemma SuffixRefl(s: string)
    ensures IsSuffix(s, s)
  {
  }

  /** A non-empty suffix of `t + [r]` is a suffix of `t` followed by `r`. */
  lemma SuffixOfAppend(v: string, t: string, r: char)
    requires IsSuffix(v, t + [r]) && |v| > 0
    ensures v == v[..|v| - 1] + [r] && IsSuffix(v[..|v| - 1], t)
  {
    assert t[|t| - (|v| - 1)..] == (t + [r])[|t + [r]| - |v|..][..|v| - 1];
  }

  /** Extending a text and one of its suffixes by the same code point keeps
      the suffix relation. */
  lemma SuffixAppend(u: string, t: string, r: char)
    requires IsSuffix(u, t)
    ensures IsSuffix(u + [r], t + [r])
  {
    assert (t + [r])[|t + [r]| - |u + [r]|..] == t[|t| - |u|..] + [r];
  }

  /** Dropping the first code point commutes with appending one. */
  lemma TailAppend(a: string, r: char)
    requires |a| > 0
    ensures (a + [r])[1..] == a[1..] + [r]
  {
  }

  /** `s` occurs in `text` starting at code point `p`. */
  predicate Occurs(text: string, s: string, p: int) {
    0 <= p && p + |s| <= |text| && text[p..p + |s|] == s
  }

  /** An occurrence is a suffix of the text up to its end, and back. */
  lemma OccursIsSuffix(text: string, s: string, p: int)
    requires 0 <= p && p + |s| <= |text|
    ensures Occurs(text, s, p) <==> IsSuffix(s, text[..p + |s|])
  {
    assert text[..p + |s|][p..] == text[p..p + |s|];
  }

  /** A suffix of a suffix of the text up to code point `j` occurs in the
      text ending at `j`. */
  lemma SuffixOccurs(text: string, u: string, v: string, j: int)
    requires 0 <= j < |text| && IsSuffix(u, v) && IsSuffix(v, text[..j + 1])
    ensures Occurs(text, u, j - |u| + 1)
  {
    SuffixTrans(u, v, text[..j + 1]);
    OccursIsSuffix(text, u, j - |u| + 1);
  }
}
