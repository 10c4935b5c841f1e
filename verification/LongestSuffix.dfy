/** Strings over bytes, and the longest suffix of a text that lies in a given prefix-closed set.
    This is the mathematics the Aho-Corasick automaton of src/policy/guardrails.c rests on. */
module LongestSuffix {
  import opened Options

  type Byte = b: int | 0 <= b < 256
  type Word = seq<Byte>

  ghost predicate IsSuffix(s: Word, t: Word) {
    |s| <= |t| && t[|t| - |s|..] == s
  }

  /** s occurs somewhere in t. */
  ghost predicate Occurs(s: Word, t: Word) {
    exists i :: 0 <= i <= |t| && IsSuffix(s, t[..i])
  }

  ghost function Butlast(s: Word): Word {
    if s == [] then [] else s[..|s| - 1]
  }

  ghost predicate PrefixClosed(paths: set<Word>) {
    [] in paths && forall s {:trigger Butlast(s)} :: s in paths ==> Butlast(s) in paths
  }

  lemma SuffixOfShorter(a: Word, b: Word, t: Word)
    requires IsSuffix(a, t) && IsSuffix(b, t) && |a| <= |b|
    ensures IsSuffix(a, b)
  {
    assert t[|t| - |b|..][|b| - |a|..] == t[|t| - |a|..];
  }

  lemma SuffixTrans(a: Word, b: Word, t: Word)
    requires IsSuffix(a, b) && IsSuffix(b, t)
    ensures IsSuffix(a, t)
  {
    assert t[|t| - |b|..][|b| - |a|..] == t[|t| - |a|..];
  }

  lemma SuffixSnoc(a: Word, t: Word, c: Byte)
    ensures IsSuffix(a, t) <==> IsSuffix(a + [c], t + [c])
  {
    if |a| <= |t| {
      assert (t + [c])[|t| - |a|..] == t[|t| - |a|..] + [c];
      if IsSuffix(a + [c], t + [c]) {
        assert (t[|t| - |a|..] + [c])[..|a|] == (a + [c])[..|a|];
      }
    }
  }

  /** The first suffix of t, from the left, that is in paths. */
  ghost function Longest(paths: set<Word>, t: Word): (r: Word)
    requires [] in paths
    ensures r in paths && |r| <= |t|
  {
    if t in paths then t else Longest(paths, t[1..])
  }

  /** It is the longest one. */
  lemma {:induction false} LongestIsLongest(paths: set<Word>, t: Word)
    requires [] in paths
    ensures IsSuffix(Longest(paths, t), t)
    ensures forall s :: s in paths && IsSuffix(s, t) ==> |s| <= |Longest(paths, t)|
  {
    if t !in paths {
      var r := Longest(paths, t[1..]);
      LongestIsLongest(paths, t[1..]);
      SuffixTrans(r, t[1..], t);
      forall s | s in paths && IsSuffix(s, t) ensures |s| <= |r| {
        assert s != t;
        SuffixOfShorter(s, t[1..], t);
      }
    }
  }

  lemma SameLengthSuffixes(a: Word, b: Word, t: Word)
    requires IsSuffix(a, t) && IsSuffix(b, t) && |a| == |b|
    ensures a == b
  {}

  /** A non-empty path that ends t + [c] is c behind a path that ends t. */
  lemma EndsWithStep(paths: set<Word>, a: Word, t: Word, c: Byte)
    requires PrefixClosed(paths) && a in paths && a != [] && IsSuffix(a, t + [c])
    ensures Butlast(a) in paths && IsSuffix(Butlast(a), t) && a == Butlast(a) + [c]
  {
    assert a[|a| - 1] == (t + [c])[|t|] == c;
    SuffixSnoc(Butlast(a), t, c);
  }

  lemma StepUpperBound(paths: set<Word>, t: Word, c: Byte)
    requires PrefixClosed(paths)
    ensures var r := Longest(paths, t); IsSuffix(Longest(paths, t + [c]), r + [c])
  {
    hide Longest, IsSuffix, PrefixClosed;
    RootIsPath(paths);
    var r := Longest(paths, t);
    var a := Longest(paths, t + [c]);
    LongestIsLongest(paths, t + [c]);
    LongestIsLongest(paths, t);
    if a == [] {
      EmptySuffix(r + [c]);
    } else {
      EndsWithStep(paths, a, t, c);
      SuffixOfShorter(Butlast(a), r, t);
      SuffixSnoc(Butlast(a), r, c);
    }
  }

  lemma RootIsPath(paths: set<Word>)
    requires PrefixClosed(paths)
    ensures [] in paths
  {}

  lemma EmptySuffix(t: Word)
    ensures IsSuffix([], t)
  {}

  /** One automaton step: the longest suffix of t + [c] only depends on the longest suffix of t. */
  lemma LongestStep(paths: set<Word>, t: Word, c: Byte)
    requires PrefixClosed(paths)
    ensures Longest(paths, t + [c]) == Longest(paths, Longest(paths, t) + [c])
  {
    var r := Longest(paths, t);
    var a := Longest(paths, t + [c]);
    var b := Longest(paths, r + [c]);
    StepUpperBound(paths, t, c);
    LongestIsLongest(paths, t + [c]);
    LongestIsLongest(paths, t);
    LongestIsLongest(paths, r + [c]);
    SuffixSnoc(r, t, c);
    SuffixTrans(b, r + [c], t + [c]);
    SameLengthSuffixes(a, b, t + [c]);
  }

  /** The keyword a state announces: its own, or the one of its failure state. */
  ghost function Inherited(paths: set<Word>, words: set<Word>, s: Word): Option<Word>
    requires [] in paths
    decreases |s|
  {
    if s in words then Some(s)
    else if s == [] then None
    else Inherited(paths, words, Longest(paths, s[1..]))
  }

  /** Following failure links finds the longest keyword that ends here, and misses none. */
  lemma {:induction false} InheritedIsLongestKeyword(paths: set<Word>, words: set<Word>, s: Word)
    requires [] in paths && words <= paths && [] !in words
    ensures var k := Inherited(paths, words, s);
      && (k.None? ==> forall w :: w in words ==> !IsSuffix(w, s))
      && (k.Some? ==> k.value in words && IsSuffix(k.value, s)
                      && forall w :: w in words && IsSuffix(w, s) ==> |w| <= |k.value|)
    decreases |s|
  {
    if s in words {
      assert IsSuffix(s, s);
    } else if s != [] {
      var f := Longest(paths, s[1..]);
      InheritedIsLongestKeyword(paths, words, f);
      LongestIsLongest(paths, s[1..]);
      assert IsSuffix(s[1..], s);
      SuffixTrans(f, s[1..], s);
      forall w | w in words && IsSuffix(w, s) ensures IsSuffix(w, f) {
        assert w != s;
        SuffixOfShorter(w, s[1..], s);
        SuffixOfShorter(w, f, s[1..]);
      }
      var k := Inherited(paths, words, f);
      if k.Some? { SuffixTrans(k.value, f, s); }
    }
  }

  /** A keyword ends at the end of t exactly when it ends at the end of t's longest path. */
  lemma KeywordEndsAtState(paths: set<Word>, t: Word, w: Word)
    requires [] in paths && w in paths
    ensures IsSuffix(w, t) <==> IsSuffix(w, Longest(paths, t))
  {
    var r := Longest(paths, t);
    LongestIsLongest(paths, t);
    if IsSuffix(w, t) { SuffixOfShorter(w, r, t); }
    if IsSuffix(w, r) { SuffixTrans(w, r, t); }
  }
}
