/** POSIX path helpers: `os.path.basename`, `dirname`, `join`, `splitext`, and pathlib's
    `name` and `suffix`, on paths written as strings. */
module Paths {
  import opened Wrappers
  import opened Strings

  /** Index of the last occurrence of `c` in `s` (`str.rfind`). */
  function LastIndexOf(s: string, c: char): (r: Option<nat>)
    ensures r.Some? ==> r.value < |s| && s[r.value] == c
    ensures r.Some? ==> forall k :: r.value < k < |s| ==> s[k] != c
    ensures r.None? ==> forall k :: 0 <= k < |s| ==> s[k] != c
  {
    if s == [] then None
    else if s[|s| - 1] == c then Some(|s| - 1)
    else LastIndexOf(s[..|s| - 1], c)
  }

  /** Final component of a path: what follows the last `/`. */
  function BaseName(p: string): (r: string)
    ensures EndsWith(p, r)
    ensures forall k :: 0 <= k < |r| ==> r[k] != '/'
    ensures |r| == |p| || LastIndexOf(p, '/') == Some(|p| - |r| - 1)
  {
    match LastIndexOf(p, '/')
    case None => p
    case Some(i) => p[i + 1..]
  }

  predicate AllSlashes(s: string) {
    forall k :: 0 <= k < |s| ==> s[k] == '/'
  }

  function RStripSlashes(s: string): (r: string)
    ensures |r| <= |s| && r == s[..|r|]
    ensures r == [] || r[|r| - 1] != '/'
    ensures AllSlashes(s[|r|..])
  {
    if s != [] && s[|s| - 1] == '/' then RStripSlashes(s[..|s| - 1]) else s
  }

  /** `os.path.dirname`: everything up to the last `/`, with trailing slashes removed
      unless the head is made of slashes only. */
  function DirName(p: string): (r: string)
    ensures StartsWith(p, r)
    ensures LastIndexOf(p, '/').None? ==> r == []
    ensures LastIndexOf(p, '/').Some? ==>
      var n := |p| - |BaseName(p)|;
      && |r| <= n && AllSlashes(p[|r|..n])
      && ((|r| == n && AllSlashes(r)) || (r != [] && r[|r| - 1] != '/' && |r| < n))
  {
    var head := match LastIndexOf(p, '/') case None => "" case Some(i) => p[..i + 1];
    assert StartsWith(p, head);
    if head != [] && !AllSlashes(head) then
      var r := RStripSlashes(head);
      assert p[..|r|] == head[..|r|];
      assert p[|r|..|head|] == head[|r|..];
      assert head[|head| - 1] == '/';
      r
    else head
  }

  /** `os.path.join(a, b)` for two components. */
  function Join(a: string, b: string): (r: string)
    ensures StartsWith(b, "/") ==> r == b
    ensures !StartsWith(b, "/") ==> StartsWith(r, a) && EndsWith(r, b)
    ensures !StartsWith(b, "/") && a != [] && a[|a| - 1] != '/' ==> r == a + "/" + b
    ensures !StartsWith(b, "/") && (a == [] || a[|a| - 1] == '/') ==> r == a + b
  {
    if StartsWith(b, "/") then b
    else if a == [] || a[|a| - 1] == '/' then a + b
    else a + "/" + b
  }

  /** The extension `os.path.splitext` splits off: that of the final component. */
  function SplitExt(p: string): (r: string)
    ensures r == [] || (r[0] == '.' && EndsWith(BaseName(p), r))
  {
    NameSplitExt(BaseName(p))
  }

  /** The splitext extension of a final component: from its last dot, provided some
      character before that dot is not a dot. */
  function NameSplitExt(name: string): (r: string)
    ensures r == [] || (r[0] == '.' && EndsWith(name, r))
  {
    match LastIndexOf(name, '.')
    case None => ""
    case Some(i) => if exists k :: 0 <= k < i && name[k] != '.' then name[i..] else ""
  }

  /** pathlib's `suffix`: that of the final component. */
  function Suffix(p: string): (r: string)
    ensures r == [] || (r[0] == '.' && |r| >= 2 && EndsWith(BaseName(p), r))
  {
    NameSuffix(BaseName(p))
  }

  /** pathlib's suffix of a final component: from its last dot, when that dot is
      neither its first nor its last character. */
  function NameSuffix(name: string): (r: string)
    ensures r == [] || (r[0] == '.' && |r| >= 2 && EndsWith(name, r))
  {
    match LastIndexOf(name, '.')
    case None => ""
    case Some(i) => if 0 < i < |name| - 1 then name[i..] else ""
  }


  /** An extension word: a dot followed by at least one character, no other dot. */
  predicate ExtWord(w: string) {
    |w| >= 2 && w[0] == '.' && forall k :: 1 <= k < |w| ==> w[k] != '.'
  }

  /** When the lowered tail of `name` is an extension word, the last dot of `name`
      is the first character of that tail. */
  lemma {:induction false} LastDotOfTail(name: string, w: string)
    requires ExtWord(w) && |w| <= |name|
    requires Lower(name[|name| - |w|..]) == w
    ensures LastIndexOf(name, '.') == Some(|name| - |w|)
  {
    var i := |name| - |w|;
    var tail := name[i..];
    assert name[i] == tail[0] && Lower(tail)[0] == LowerChar(tail[0]);
    forall k | i < k < |name| ensures name[k] != '.' {
      assert name[k] == tail[k - i];
      assert Lower(tail)[k - i] == LowerChar(tail[k - i]);
      assert w[k - i] != '.';
    }
    LastIndexOfIs(name, '.', i);
  }

  /** `c` at `i` and nowhere after it: `i` is the last occurrence. */
  lemma {:induction false} LastIndexOfIs(s: string, c: char, i: nat)
    requires i < |s| && s[i] == c
    requires forall k :: i < k < |s| ==> s[k] != c
    ensures LastIndexOf(s, c) == Some(i)
    decreases |s|
  {
    if i < |s| - 1 {
      var front := s[..|s| - 1];
      assert front[i] == c;
      LastIndexOfIs(front, c, i);
    }
  }

  /** pathlib's suffix, lowered, is the word `w` exactly when the final component is
      longer than `w` and ends with `w` in any letter case. */
  lemma SuffixIs(p: string, w: string)
    requires ExtWord(w)
    ensures var name := BaseName(p);
      Lower(Suffix(p)) == w <==> |name| > |w| && Lower(name[|name| - |w|..]) == w
  {
    NameSuffixIs(BaseName(p), w);
  }

  lemma {:induction false} NameSuffixIs(name: string, w: string)
    requires ExtWord(w)
    ensures Lower(NameSuffix(name)) == w <==> |name| > |w| && Lower(name[|name| - |w|..]) == w
  {
    if Lower(NameSuffix(name)) == w {
      NameSuffixTail(name, w);
    }
    if |name| > |w| && Lower(name[|name| - |w|..]) == w {
      NameSuffixOfTail(name, w);
    }
  }

  /** A suffix that lowers to `w` is the tail of a longer name. */
  lemma {:induction false} NameSuffixTail(name: string, w: string)
    requires ExtWord(w) && Lower(NameSuffix(name)) == w
    ensures |name| > |w| && NameSuffix(name) == name[|name| - |w|..]
  {
    var s := NameSuffix(name);
    assert |s| == |w|;
    var i := LastIndexOf(name, '.').value;
    assert s == name[i..];
  }

  /** A name longer than `w` that ends with `w` in any letter case has that tail as its
      suffix. */
  lemma {:induction false} NameSuffixOfTail(name: string, w: string)
    requires ExtWord(w)
    requires |name| > |w| && Lower(name[|name| - |w|..]) == w
    ensures NameSuffix(name) == name[|name| - |w|..]
  {
    LastDotOfTail(name, w);
  }

  /** The splitext extension, lowered, is the word `w` exactly when the final component
      ends with `w` in any letter case and some character before it is not a dot. */
  lemma SplitExtIs(p: string, w: string)
    requires ExtWord(w)
    ensures var name := BaseName(p);
      Lower(SplitExt(p)) == w <==>
        |name| > |w| && Lower(name[|name| - |w|..]) == w
        && exists k :: 0 <= k < |name| - |w| && name[k] != '.'
  {
    NameSplitExtIs(BaseName(p), w);
  }

  lemma {:induction false} NameSplitExtIs(name: string, w: string)
    requires ExtWord(w)
    ensures Lower(NameSplitExt(name)) == w <==>
      |name| > |w| && Lower(name[|name| - |w|..]) == w
      && exists k :: 0 <= k < |name| - |w| && name[k] != '.'
  {
    if Lower(NameSplitExt(name)) == w {
      NameSplitExtTail(name, w);
    }
    if && |name| > |w| && Lower(name[|name| - |w|..]) == w
       && exists k :: 0 <= k < |name| - |w| && name[k] != '.'
    {
      var k :| 0 <= k < |name| - |w| && name[k] != '.';
      NameSplitExtOfTail(name, w, k);
    }
  }

  /** A name ending in `w` in any letter case, with a character other than a dot at `k`
      in its stem, has that tail as its splitext extension. */
  lemma {:induction false} NameSplitExtOfTail(name: string, w: string, k: nat)
    requires ExtWord(w)
    requires |name| > |w| && Lower(name[|name| - |w|..]) == w
    requires k < |name| - |w| && name[k] != '.'
    ensures NameSplitExt(name) == name[|name| - |w|..]
  {
    LastDotOfTail(name, w);
  }

  /** A splitext extension that lowers to `w` is the tail of the name after a stem with
      a character other than a dot. */
  lemma {:induction false} NameSplitExtTail(name: string, w: string)
    requires ExtWord(w) && Lower(NameSplitExt(name)) == w
    ensures && |name| > |w| && NameSplitExt(name) == name[|name| - |w|..]
            && exists k :: 0 <= k < |name| - |w| && name[k] != '.'
  {
    var e := NameSplitExt(name);
    assert |e| == |w|;
    var i := LastIndexOf(name, '.').value;
    assert e == name[i..];
  }
}
