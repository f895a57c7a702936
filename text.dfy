/** File-name handling used by the upload and processing endpoints: ASCII lower-casing,
    `str.endswith`, and the `name`, `suffix` and `stem` properties of a POSIX `pathlib` path. */
module Text {

  /** `str.lower` on one character (ASCII letters only). */
  function LowerChar(c: char): char
  {
    if 'A' <= c <= 'Z' then (c as int + 32) as char else c
  }

  /** `str.lower`, character by character. */
  function Lower(s: string): (r: string)
    ensures |r| == |s|
  {
    if s == [] then [] else Lower(s[..|s| - 1]) + [LowerChar(s[|s| - 1])]
  }

  lemma {:induction false} LowerAt(s: string, i: nat)
    requires i < |s|
    ensures Lower(s)[i] == LowerChar(s[i])
  {
    if i < |s| - 1 {
      LowerAt(s[..|s| - 1], i);
    }
  }

  lemma LowerEach(s: string)
    ensures forall i :: 0 <= i < |s| ==> Lower(s)[i] == LowerChar(s[i])
  {
    forall i | 0 <= i < |s| ensures Lower(s)[i] == LowerChar(s[i]) {
      LowerAt(s, i);
    }
  }

  lemma {:induction false} LowerConcat(a: string, b: string)
    ensures Lower(a + b) == Lower(a) + Lower(b)
  {
    LowerEach(a);
    LowerEach(b);
    LowerEach(a + b);
  }

  /** Lower-casing twice changes nothing more than lower-casing once. */
  lemma {:induction false} LowerIdempotent(s: string)
    ensures Lower(Lower(s)) == Lower(s)
  {
    LowerEach(s);
    LowerEach(Lower(s));
  }

  predicate EndsWith(s: string, suffix: string)
  {
    |suffix| <= |s| && s[|s| - |suffix|..] == suffix
  }

  lemma {:induction false} EndsWithConcat(a: string, b: string)
    ensures EndsWith(a + b, b)
  {
    assert (a + b)[|a|..] == b;
  }

  /** `PurePath.name` for a path that does not end in '/' and has no "." component: the text
      after the last '/'. pathlib also drops a trailing '/' ("a/b/" has name "b"), which
      this function does not. */
  function Basename(s: string): (r: string)
    ensures '/' !in r && |r| <= |s|
    ensures '/' !in s ==> r == s
  {
    if s == [] then []
    else if s[|s| - 1] == '/' then []
    else Basename(s[..|s| - 1]) + [s[|s| - 1]]
  }

  /** The file name of `dir/child` is `child`: an archive entry named by a file's name is flat. */
  lemma {:induction false} BasenameOfChild(dir: string, child: string)
    requires '/' !in child
    ensures Basename(dir + "/" + child) == child
  {
    if child == [] {
      assert (dir + "/" + child)[|dir + "/" + child| - 1] == '/';
    } else {
      var last := |child| - 1;
      assert (dir + "/" + child)[..|dir + "/" + child| - 1] == dir + "/" + child[..last];
      assert '/' !in child[..last] by {
        forall k | 0 <= k < last ensures child[..last][k] != '/' {
          assert child[..last][k] == child[k];
        }
      }
      BasenameOfChild(dir, child[..last]);
      assert child[..last] + [child[last]] == child;
    }
  }

  /** `str.rfind('.')`: the index of the last '.', or -1. */
  function LastDot(s: string): (i: int)
    ensures -1 <= i < |s|
    ensures i >= 0 ==> s[i] == '.'
    ensures forall k :: i < k < |s| ==> s[k] != '.'
  {
    if s == [] then -1
    else if s[|s| - 1] == '.' then |s| - 1
    else LastDot(s[..|s| - 1])
  }

  /** pathlib's test for a dot that separates a suffix: not leading, not trailing. */
  predicate HasSuffixDot(name: string)
  {
    0 < LastDot(name) < |name| - 1
  }

  /** `PurePath.suffix`. */
  function Suffix(s: string): string
  {
    var name := Basename(s);
    if HasSuffixDot(name) then name[LastDot(name)..] else ""
  }

  /** `PurePath.stem`. */
  function Stem(s: string): string
  {
    var name := Basename(s);
    if HasSuffixDot(name) then name[..LastDot(name)] else name
  }

  /** The stem and the suffix put back together give the file name, and a suffix is either
      empty or one dot followed by at least one dot-free character. */
  lemma {:induction false} StemSuffixSplit(s: string)
    ensures Stem(s) + Suffix(s) == Basename(s)
    ensures Suffix(s) == "" || (|Suffix(s)| >= 2 && Suffix(s)[0] == '.' && '.' !in Suffix(s)[1..])
    ensures '/' !in Stem(s) && '/' !in Suffix(s)
  {
    var name := Basename(s);
    if HasSuffixDot(name) {
      SplitAtDot(name, LastDot(name));
    }
  }

  /** Cutting a separator-free name at a dot after which no dot follows. */
  lemma {:induction false} SplitAtDot(name: string, i: nat)
    requires '/' !in name && 0 < i < |name| - 1 && name[i] == '.'
    requires forall k :: i < k < |name| ==> name[k] != '.'
    ensures name[..i] + name[i..] == name
    ensures |name[i..]| >= 2 && name[i..][0] == '.' && '.' !in name[i..][1..]
    ensures '/' !in name[..i] && '/' !in name[i..]
  {
    assert name[..i] + name[i..] == name;
    assert forall k :: 0 <= k < |name[i..]| - 1 ==> name[i..][1..][k] == name[i + 1 + k];
    assert forall k :: 0 <= k < |name[..i]| ==> name[..i][k] == name[k];
    assert forall k :: 0 <= k < |name[i..]| ==> name[i..][k] == name[i + k];
  }

  /** A name that ends in ".ext" (any case, ext free of dots and separators) has that
      extension as its pathlib suffix, unless the file name is the extension alone. */
  lemma {:induction false} SuffixOfDottedEnding(s: string, ext: string)
    requires |ext| >= 2 && ext[0] == '.' && '.' !in ext[1..] && '/' !in ext
    requires EndsWith(Lower(s), ext)
    requires |Basename(s)| > |ext|
    ensures Lower(Suffix(s)) == ext
  {
    var tail := s[|s| - |ext|..];
    TailLower(s, ext);
    DottedTail(tail, ext);
    NameEndsWithDottedTail(s, tail);
  }

  /** When `s` ends in a dotted, separator-free tail shorter than its file name, that tail is
      the suffix. */
  lemma {:induction false} NameEndsWithDottedTail(s: string, tail: string)
    requires |tail| <= |s| && s[|s| - |tail|..] == tail
    requires DotLed(tail) && '/' !in tail
    requires |Basename(s)| > |tail|
    ensures Suffix(s) == tail
  {
    var n := |tail|;
    BasenameKeepsTail(s, n);
    var name := Basename(s);
    DotPosition(name, tail, |name| - n);
    SuffixIs(s, name, |name| - n);
  }

  lemma {:induction false} SuffixIs(s: string, name: string, d: nat)
    requires name == Basename(s) && LastDot(name) == d && 0 < d < |name| - 1
    ensures Suffix(s) == name[d..]
  {
  }

  lemma {:induction false} TailLower(s: string, ext: string)
    requires EndsWith(Lower(s), ext)
    ensures Lower(s[|s| - |ext|..]) == ext
  {
    LowerOfTail(s, |ext|);
  }

  lemma {:induction false} LowerOfTail(s: string, n: nat)
    requires n <= |s|
    ensures Lower(s)[|s| - n..] == Lower(s[|s| - n..])
    ensures EndsWith(Lower(s), Lower(s[|s| - n..]))
  {
    var t := s[|s| - n..];
    LowerEach(s);
    LowerEach(t);
    assert forall k :: 0 <= k < n ==> t[k] == s[|s| - n + k];
  }

  /** Lower-casing keeps '.' and '/' where they are, so a tail that lower-cases to a
      dotted extension is itself dotted in the same way. */
  lemma {:induction false} DottedTail(tail: string, ext: string)
    requires |ext| >= 2 && ext[0] == '.' && '.' !in ext[1..] && '/' !in ext
    requires Lower(tail) == ext
    ensures DotLed(tail) && '/' !in tail
  {
    LowerEach(tail);
    assert LowerChar(tail[0]) == ext[0];
    forall k | 1 <= k < |tail| ensures tail[k] != '.' {
      assert LowerChar(tail[k]) == ext[k] == ext[1..][k - 1];
    }
    forall k | 0 <= k < |tail| ensures tail[k] != '/' {
      assert LowerChar(tail[k]) == ext[k];
    }
  }

  /** A leading dot, no other dot, and at least one character after it. */
  predicate DotLed(t: string)
  {
    |t| >= 2 && t[0] == '.' && forall k :: 1 <= k < |t| ==> t[k] != '.'
  }

  lemma {:induction false} DotPosition(name: string, tail: string, d: nat)
    requires |tail| >= 1 && d + |tail| == |name| && name[|name| - |tail|..] == tail
    requires DotLed(tail)
    ensures LastDot(name) == d
  {
    assert name[d] == tail[0];
    forall k | d < k < |name| ensures name[k] != '.' {
      assert name[k] == tail[k - d];
    }
    LastDotIs(name, d);
  }

  /** A separator-free tail of `s` survives in the file name. */
  lemma {:induction false} BasenameKeepsTail(s: string, n: nat)
    requires n <= |s| && '/' !in s[|s| - n..]
    ensures |Basename(s)| >= n && Basename(s)[|Basename(s)| - n..] == s[|s| - n..]
  {
    if n > 0 {
      var init := s[..|s| - 1];
      var tail := s[|s| - n..];
      var initTail := init[|init| - (n - 1)..];
      assert initTail == tail[..n - 1];
      assert s[|s| - 1] == tail[n - 1];
      assert '/' !in initTail by {
        forall k | 0 <= k < n - 1 ensures initTail[k] != '/' {
          assert initTail[k] == tail[k];
        }
      }
      BasenameKeepsTail(init, n - 1);
      var b := Basename(init);
      assert Basename(s) == b + [s[|s| - 1]];
      assert Basename(s)[|Basename(s)| - n..] == b[|b| - (n - 1)..] + [s[|s| - 1]];
      assert tail == tail[..n - 1] + [tail[n - 1]];
    }
  }

  lemma LastDotIs(name: string, d: nat)
    requires d < |name| && name[d] == '.'
    requires forall k :: d < k < |name| ==> name[k] != '.'
    ensures LastDot(name) == d
  {
  }
}
