/** The two Python `str` operations that the conversion script calls,
    `s.replace(pat, rep)` and `s.split(sep)`, with `sep.join(parts)` as the
    partner of `split`, stated over Dafny strings. `Contains` (a substring
    test) and `CountChar` (occurrences of one character) are predicates the
    contracts are written with. */
module PyStr {

  /** `p` is a prefix of `s`. */
  predicate IsPrefix(p: string, s: string) {
    |p| <= |s| && s[..|p|] == p
  }

  /** `q` occurs in `s` as a contiguous substring (Python's `q in s`). */
  predicate Contains(s: string, q: string)
    decreases |s|
  {
    IsPrefix(q, s) || (s != [] && Contains(s[1..], q))
  }

  /** No character of `a` occurs in `b`. */
  predicate Disjoint(a: string, b: string) {
    forall i :: 0 <= i < |a| ==> a[i] !in b
  }

  /** Number of occurrences of the character `c` in `s` (Python's `s.count(c)`). */
  function CountChar(s: string, c: char): nat {
    if s == [] then 0 else (if s[0] == c then 1 else 0) + CountChar(s[1..], c)
  }

  /** `s.replace("", rep)`: `rep` before every character and at the end. */
  function InsertEverywhere(s: string, rep: string): string {
    if s == [] then rep else rep + [s[0]] + InsertEverywhere(s[1..], rep)
  }

  /** `s.replace(pat, rep)`: scans left to right and replaces every
      non-overlapping occurrence of `pat`, leftmost first. */
  function Replace(s: string, pat: string, rep: string): string
    decreases |s|
  {
    if pat == [] then InsertEverywhere(s, rep)
    else if s == [] then []
    else if IsPrefix(pat, s) then rep + Replace(s[|pat|..], pat, rep)
    else [s[0]] + Replace(s[1..], pat, rep)
  }

  /** `s.split(sep)` for a non-empty separator (Python raises ValueError on an
      empty one): the pieces between the leftmost non-overlapping occurrences
      of `sep`; an empty `s` gives `[""]`. */
  function Split(s: string, sep: string): (parts: seq<string>)
    requires sep != []
    ensures |parts| > 0
    decreases |s|
  {
    if s == [] then [""]
    else if IsPrefix(sep, s) then [""] + Split(s[|sep|..], sep)
    else
      var rest := Split(s[1..], sep);
      [[s[0]] + rest[0]] + rest[1..]
  }

  /** `sep.join(parts)`. */
  function Join(parts: seq<string>, sep: string): string {
    if |parts| == 0 then ""
    else if |parts| == 1 then parts[0]
    else parts[0] + sep + Join(parts[1..], sep)
  }

  // ---------------------------------------------------------------- Contains

  lemma {:induction false} ContainsInSuffix(s: string, q: string, k: nat)
    requires k <= |s| && Contains(s[k..], q)
    ensures Contains(s, q)
    decreases k
  {
    if k > 0 {
      assert s[1..][k - 1..] == s[k..];
      ContainsInSuffix(s[1..], q, k - 1);
    }
  }

  /** Every character of an occurring substring occurs in the string. */
  lemma {:induction false} ContainsCharOf(s: string, q: string, k: nat)
    requires Contains(s, q) && k < |q|
    ensures q[k] in s
    decreases |s|
  {
    if IsPrefix(q, s) {
      assert s[k] == q[k];
    } else {
      ContainsCharOf(s[1..], q, k);
    }
  }

  lemma {:induction false} ContainsSingle(s: string, c: char)
    ensures Contains(s, [c]) <==> c in s
    decreases |s|
  {
    if Contains(s, [c]) {
      ContainsCharOf(s, [c], 0);
    }
    if c in s && s[0] != c {
      assert c in s[1..];
      ContainsSingle(s[1..], c);
    }
  }

  /** `q` is absent when it is not at the front and its first character does
      not occur after the front. */
  lemma NotContainsPastFront(s: string, q: string)
    requires q != [] && !IsPrefix(q, s) && (s != [] ==> q[0] !in s[1..])
    ensures !Contains(s, q)
  {
    if s != [] && Contains(s[1..], q) {
      ContainsCharOf(s[1..], q, 0);
    }
  }

  /** An occurrence cannot start inside a prefix that shares no character with it. */
  lemma {:induction false} ContainsSkipDisjoint(a: string, b: string, q: string)
    requires q != [] && Disjoint(a, q) && Contains(a + b, q)
    ensures Contains(b, q)
    decreases |a|
  {
    if a == [] {
      assert a + b == b;
    } else {
      assert (a + b)[0] == a[0] && a[0] !in q;
      assert !IsPrefix(q, a + b);
      assert (a + b)[1..] == a[1..] + b;
      ContainsSkipDisjoint(a[1..], b, q);
    }
  }

  // ----------------------------------------------------------------- Replace

  /** An occurrence of `q` at the front of a replacement result, where `q`
      does not contain the first character of `rep`, was copied from the
      front of the input, and no replacement happened there. */
  lemma {:induction false} PrefixOfReplace(s: string, pat: string, rep: string, q: string)
    requires pat != [] && rep != [] && q != [] && rep[0] !in q
    requires IsPrefix(q, Replace(s, pat, rep))
    ensures IsPrefix(q, s) && !IsPrefix(pat, s)
    decreases |s|
  {
    var r := Replace(s, pat, rep);
    if s != [] {
      assert r[0] == q[0];
      assert !IsPrefix(pat, s);
      var r' := Replace(s[1..], pat, rep);
      assert r == [s[0]] + r';
      assert q[0] == s[0];
      if |q| > 1 {
        assert r'[..|q| - 1] == r[1..|q|];
        assert IsPrefix(q[1..], r');
        PrefixOfReplace(s[1..], pat, rep, q[1..]);
        assert s[..|q|] == [s[0]] + s[1..][..|q| - 1];
      }
    }
  }

  /** A pattern that does not occur is left alone. */
  lemma {:induction false} ReplaceAbsent(s: string, pat: string, rep: string)
    requires pat != []
    ensures !Contains(s, pat) ==> Replace(s, pat, rep) == s
    decreases |s|
  {
    if s != [] && !Contains(s, pat) {
      ReplaceAbsent(s[1..], pat, rep);
    }
  }

  /** After the replacement the pattern no longer occurs, provided the
      replacement text is non-empty and shares no character with it. */
  lemma {:induction false} ReplaceRemoves(s: string, pat: string, rep: string)
    requires pat != [] && rep != [] && Disjoint(rep, pat)
    ensures !Contains(Replace(s, pat, rep), pat)
    decreases |s|
  {
    var r := Replace(s, pat, rep);
    if s == [] {
    } else if IsPrefix(pat, s) {
      var r' := Replace(s[|pat|..], pat, rep);
      ReplaceRemoves(s[|pat|..], pat, rep);
      if Contains(rep + r', pat) {
        ContainsSkipDisjoint(rep, r', pat);
      }
    } else {
      var r' := Replace(s[1..], pat, rep);
      assert r == [s[0]] + r' && r[1..] == r';
      ReplaceRemoves(s[1..], pat, rep);
      if IsPrefix(pat, r) {
        PrefixOfReplace(s, pat, rep, pat);
      }
    }
  }

  /** A replacement does not create an occurrence of a text `q` that shares
      no character with the (non-empty) replacement text. */
  lemma {:induction false} ReplaceKeepsAbsent(s: string, pat: string, rep: string, q: string)
    requires pat != [] && rep != [] && q != [] && Disjoint(rep, q)
    requires !Contains(s, q)
    ensures !Contains(Replace(s, pat, rep), q)
    decreases |s|
  {
    var r := Replace(s, pat, rep);
    if s == [] {
    } else if IsPrefix(pat, s) {
      var r' := Replace(s[|pat|..], pat, rep);
      if Contains(s[|pat|..], q) {
        ContainsInSuffix(s, q, |pat|);
      }
      ReplaceKeepsAbsent(s[|pat|..], pat, rep, q);
      if Contains(rep + r', q) {
        ContainsSkipDisjoint(rep, r', q);
      }
    } else {
      var r' := Replace(s[1..], pat, rep);
      assert r == [s[0]] + r' && r[1..] == r';
      ReplaceKeepsAbsent(s[1..], pat, rep, q);
      if IsPrefix(q, r) {
        PrefixOfReplace(s, pat, rep, q);
      }
    }
  }

  /** Replacing a single character changes the length by `|rep| - 1` per occurrence. */
  lemma {:induction false} ReplaceCharLength(s: string, c: char, rep: string)
    ensures |Replace(s, [c], rep)| == |s| + (|rep| - 1) * CountChar(s, c)
    decreases |s|
  {
    if s != [] {
      ReplaceCharLength(s[1..], c, rep);
      var n := CountChar(s[1..], c);
      if s[0] == c {
        assert IsPrefix([c], s);
        assert (|rep| - 1) * (n + 1) == (|rep| - 1) * n + |rep| - 1;
      } else {
        assert !IsPrefix([c], s);
      }
    }
  }

  // ------------------------------------------------------------ Split / Join

  lemma PrefixTrans(a: string, b: string, c: string)
    ensures IsPrefix(a, b) && IsPrefix(b, c) ==> IsPrefix(a, c)
  {
    if IsPrefix(a, b) && IsPrefix(b, c) {
      assert c[..|a|] == b[..|a|];
    }
  }

  lemma PrefixCons(c: char, x: string, p: string)
    requires p != []
    ensures IsPrefix(p, [c] + x) <==> p[0] == c && IsPrefix(p[1..], x)
  {
    if p[0] == c && IsPrefix(p[1..], x) {
      assert ([c] + x)[..|p|] == [c] + x[..|p| - 1];
    }
    if IsPrefix(p, [c] + x) {
      assert x[..|p| - 1] == ([c] + x)[1..|p|];
    }
  }

  lemma JoinStartsWith(parts: seq<string>, sep: string)
    requires |parts| > 0
    ensures IsPrefix(parts[0], Join(parts, sep))
  {
  }

  lemma JoinFront(x: string, rest: seq<string>, sep: string)
    requires |rest| > 0
    ensures Join([x] + rest, sep) == x + sep + Join(rest, sep)
  {
    assert ([x] + rest)[1..] == rest;
  }

  lemma JoinGlue(c: char, parts: seq<string>, sep: string)
    requires |parts| > 0
    ensures Join([[c] + parts[0]] + parts[1..], sep) == [c] + Join(parts, sep)
  {
    var glued := [[c] + parts[0]] + parts[1..];
    assert glued[0] == [c] + parts[0];
    assert glued[1..] == parts[1..];
    if |parts| > 1 {
      assert Join(glued, sep) == [c] + parts[0] + sep + Join(parts[1..], sep);
    }
  }

  /** Joining the pieces with the separator gives back the input. */
  lemma {:induction false} JoinSplit(s: string, sep: string)
    requires sep != []
    ensures Join(Split(s, sep), sep) == s
    decreases |s|
  {
    if s == [] {
    } else if IsPrefix(sep, s) {
      var rest := Split(s[|sep|..], sep);
      JoinSplit(s[|sep|..], sep);
      JoinFront("", rest, sep);
      assert s == sep + s[|sep|..];
    } else {
      var rest := Split(s[1..], sep);
      JoinSplit(s[1..], sep);
      JoinGlue(s[0], rest, sep);
      assert s == [s[0]] + s[1..];
    }
  }

  /** No piece contains the separator. */
  lemma {:induction false} SplitPiecesFree(s: string, sep: string)
    requires sep != []
    ensures forall i :: 0 <= i < |Split(s, sep)| ==> !Contains(Split(s, sep)[i], sep)
    decreases |s|
  {
    var parts := Split(s, sep);
    if s == [] {
      assert !IsPrefix(sep, "");
    } else if IsPrefix(sep, s) {
      SplitPiecesFree(s[|sep|..], sep);
      assert !IsPrefix(sep, "");
      assert parts[1..] == Split(s[|sep|..], sep);
    } else {
      var rest := Split(s[1..], sep);
      SplitPiecesFree(s[1..], sep);
      var first := [s[0]] + rest[0];
      assert parts[0] == first && parts[1..] == rest[1..];
      JoinSplit(s[1..], sep);
      JoinStartsWith(rest, sep);
      PrefixTrans(sep, first, s);
      assert !IsPrefix(sep, first);
      assert first[1..] == rest[0];
      assert !Contains(first, sep);
      forall i | 0 <= i < |parts|
        ensures !Contains(parts[i], sep)
      {
        if i > 0 {
          assert parts[i] == rest[i];
        }
      }
    }
  }

  /** A head that does not contain the separator's first character is glued
      onto the first piece of the rest. */
  lemma {:induction false} SplitFreeHead(a: string, b: string, sep: string)
    requires sep != [] && sep[0] !in a
    ensures Split(a + b, sep) == [a + Split(b, sep)[0]] + Split(b, sep)[1..]
    decreases |a|
  {
    if a == [] {
      assert a + b == b;
      assert "" + Split(b, sep)[0] == Split(b, sep)[0];
    } else {
      assert (a + b)[0] == a[0];
      assert !IsPrefix(sep, a + b);
      assert (a + b)[1..] == a[1..] + b;
      SplitFreeHead(a[1..], b, sep);
      assert [a[0]] + (a[1..] + Split(b, sep)[0]) == a + Split(b, sep)[0];
    }
  }

  /** Splitting a join gives back the parts, when no part contains the
      separator's first character. */
  lemma {:induction false} SplitJoin(parts: seq<string>, sep: string)
    requires sep != [] && |parts| > 0
    requires forall i :: 0 <= i < |parts| ==> sep[0] !in parts[i]
    ensures Split(Join(parts, sep), sep) == parts
    decreases |parts|
  {
    if |parts| == 1 {
      SplitFreeHead(parts[0], "", sep);
      assert parts[0] + "" == parts[0];
    } else {
      var tail := Join(parts[1..], sep);
      SplitJoin(parts[1..], sep);
      assert IsPrefix(sep, sep + tail);
      assert (sep + tail)[|sep|..] == tail;
      assert Split(sep + tail, sep) == [""] + parts[1..];
      assert Join(parts, sep) == parts[0] + (sep + tail);
      SplitFreeHead(parts[0], sep + tail, sep);
      assert parts[0] + "" == parts[0];
    }
  }

  /** `a + sep + b` splits at the separator after `a`. */
  lemma SplitAtFirst(a: string, b: string, sep: string)
    requires sep != [] && sep[0] !in a
    ensures Split(a + sep + b, sep) == [a] + Split(b, sep)
  {
    assert a + sep + b == a + (sep + b);
    assert IsPrefix(sep, sep + b) && (sep + b)[|sep|..] == b;
    assert Split(sep + b, sep) == [""] + Split(b, sep);
    SplitFreeHead(a, sep + b, sep);
    assert a + "" == a;
  }

  /** A string without the separator's first character is one piece. */
  lemma SplitWhole(s: string, sep: string)
    requires sep != [] && sep[0] !in s
    ensures Split(s, sep) == [s]
  {
    SplitFreeHead(s, "", sep);
    assert s + "" == s;
  }

  // ---------------------------------------------------------------- counting

  /** Total number of occurrences of `c` over all the parts. */
  function CountAll(parts: seq<string>, c: char): nat
    decreases |parts|
  {
    if parts == [] then 0 else CountChar(parts[0], c) + CountAll(parts[1..], c)
  }

  lemma {:induction false} CountCharAppend(a: string, b: string, c: char)
    ensures CountChar(a + b, c) == CountChar(a, c) + CountChar(b, c)
    decreases |a|
  {
    if a == [] {
      assert a + b == b;
    } else {
      assert (a + b)[0] == a[0];
      assert (a + b)[1..] == a[1..] + b;
      CountCharAppend(a[1..], b, c);
    }
  }

  lemma {:induction false} CountCharAbsent(s: string, c: char)
    ensures CountChar(s, c) == 0 <==> c !in s
    decreases |s|
  {
    if s != [] {
      CountCharAbsent(s[1..], c);
      assert s == [s[0]] + s[1..];
    }
  }

  /** Joining with a one-character separator adds one occurrence of it per seam. */
  lemma {:induction false} JoinCount(parts: seq<string>, c: char)
    requires |parts| > 0
    ensures CountChar(Join(parts, [c]), c) == |parts| - 1 + CountAll(parts, c)
    decreases |parts|
  {
    if |parts| > 1 {
      JoinCount(parts[1..], c);
      CountCharAppend(parts[0], [c], c);
      CountCharAppend(parts[0] + [c], Join(parts[1..], [c]), c);
      assert CountChar([c], c) == 1;
    } else {
      assert parts[1..] == [];
    }
  }

  /** Splitting on a one-character separator gives one piece more than
      there are occurrences of it. */
  lemma {:induction false} SplitCount(s: string, c: char)
    ensures |Split(s, [c])| == CountChar(s, c) + 1
    decreases |s|
  {
    if s != [] {
      SplitCount(s[1..], c);
      if s[0] == c {
        assert IsPrefix([c], s);
      } else {
        assert !IsPrefix([c], s);
      }
    }
  }
}
