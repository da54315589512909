/**
  POSIX path strings as the link-farm code builds them with `os.path.split` and
  `os.path.join`, and the directory entry such a string resolves to.

  A resolved path is the sequence of its non-empty components, read from the
  root: runs of separators collapse and a trailing separator adds nothing.
 */
module PosixPath {

  const Sep: char := '/'

  predicate IsAbsolute(s: string) {
    |s| > 0 && s[0] == Sep
  }

  /** `os.path.join(a, b)`: an absolute `b` replaces `a`; otherwise one separator
      is inserted unless `a` is empty or already ends with one. */
  function Join(a: string, b: string): string {
    if IsAbsolute(b) then b
    else if a == [] || a[|a| - 1] == Sep then a + b
    else a + [Sep] + b
  }

  /** `s.rfind('/') + 1`: the length of the part up to and including the last separator. */
  function SepEnd(s: string): (i: nat)
    ensures i <= |s|
    ensures Sep !in s[i..]
    ensures i > 0 ==> s[i - 1] == Sep
  {
    if s == [] then 0
    else if s[|s| - 1] == Sep then |s|
    else
      var i := SepEnd(s[..|s| - 1]);
      assert s[i..] == s[..|s| - 1][i..] + [s[|s| - 1]];
      i
  }

  predicate AllSep(s: string) {
    forall k :: 0 <= k < |s| ==> s[k] == Sep
  }

  /** `s.rstrip('/')` */
  function RStripSep(s: string): (r: string)
    ensures r <= s
    ensures r == [] || r[|r| - 1] != Sep
    ensures forall k :: |r| <= k < |s| ==> s[k] == Sep
  {
    if s != [] && s[|s| - 1] == Sep then RStripSep(s[..|s| - 1]) else s
  }

  /** `os.path.split(p)`: the tail is everything after the last separator; the head
      is everything before it, with trailing separators removed unless the head
      consists of separators only. */
  function Split(p: string): (string, string) {
    var i := SepEnd(p);
    var head := p[..i];
    (if head != [] && !AllSep(head) then RStripSep(head) else head, p[i..])
  }

  /** Length of the leading run of non-separator characters. */
  function SegmentLen(s: string): (n: nat)
    ensures n <= |s|
    ensures Sep !in s[..n]
    ensures n < |s| ==> s[n] == Sep
    ensures s != [] && s[0] != Sep ==> n >= 1
  {
    if s == [] || s[0] == Sep then 0
    else
      var n := 1 + SegmentLen(s[1..]);
      assert s[..n] == [s[0]] + s[1..][..n - 1];
      n
  }

  /** The directory entry a path string names: its non-empty components. */
  function Components(s: string): (r: seq<string>)
    ensures forall k :: 0 <= k < |r| ==> r[k] != [] && Sep !in r[k]
    decreases |s|
  {
    if s == [] then []
    else if s[0] == Sep then Components(s[1..])
    else
      var n := SegmentLen(s);
      [s[..n]] + Components(s[n..])
  }

  /** Where `os.path.join(prefix, entry)` lands: an absolute entry stands for itself,
      a relative one is read below the prefix. */
  function EntryPath(prefix: string, entry: string): seq<string> {
    if IsAbsolute(entry) then Components(entry) else Components(prefix) + Components(entry)
  }

  lemma {:induction false} SegmentLenSlash(a: string, b: string)
    ensures SegmentLen(a + [Sep] + b) == SegmentLen(a)
    decreases |a|
  {
    if a != [] && a[0] != Sep {
      assert (a + [Sep] + b)[1..] == a[1..] + [Sep] + b;
      SegmentLenSlash(a[1..], b);
    }
  }

  /** Joining two strings with a separator concatenates what they name. */
  lemma {:induction false} ComponentsSlash(a: string, b: string)
    ensures Components(a + [Sep] + b) == Components(a) + Components(b)
    decreases |a|
  {
    var s := a + [Sep] + b;
    if a == [] {
      assert s[1..] == b;
    } else if a[0] == Sep {
      assert s[1..] == a[1..] + [Sep] + b;
      ComponentsSlash(a[1..], b);
    } else {
      var n := SegmentLen(a);
      SegmentLenSlash(a, b);
      assert s[..n] == a[..n];
      assert s[n..] == a[n..] + [Sep] + b;
      ComponentsSlash(a[n..], b);
    }
  }

  lemma ComponentsTrailingSep(a: string)
    ensures Components(a + [Sep]) == Components(a)
  {
    assert a + [Sep] == a + [Sep] + [];
    ComponentsSlash(a, []);
  }

  lemma ComponentsNoSep(s: string)
    requires Sep !in s
    ensures Components(s) == if s == [] then [] else [s]
  {
    if s != [] {
      var n := SegmentLen(s);
      assert n == |s|;
      assert s[..n] == s;
      assert s[n..] == [];
      assert Components(s) == [s[..n]] + Components(s[n..]);
    }
  }

  lemma {:induction false} ComponentsRStrip(s: string)
    ensures Components(RStripSep(s)) == Components(s)
    decreases |s|
  {
    if s != [] && s[|s| - 1] == Sep {
      var t := s[..|s| - 1];
      assert s == t + [Sep];
      ComponentsTrailingSep(t);
      ComponentsRStrip(t);
    }
  }

  /** What `os.path.join(a, b)` names: `b` alone when it is absolute, otherwise
      `b` read below `a`. */
  lemma ComponentsJoin(a: string, b: string)
    ensures Components(Join(a, b)) ==
            if IsAbsolute(b) then Components(b) else Components(a) + Components(b)
  {
    if IsAbsolute(b) {
    } else if a == [] {
      assert a + b == b;
    } else if a[|a| - 1] == Sep {
      var a' := a[..|a| - 1];
      assert a == a' + [Sep];
      assert a + b == a' + [Sep] + b;
      ComponentsSlash(a', b);
      ComponentsTrailingSep(a');
    } else {
      ComponentsSlash(a, b);
    }
  }

  /** The tail `os.path.split` gives holds no separator, and is empty exactly when
      the path is empty or ends with a separator. */
  lemma SplitTail(f: string)
    ensures Sep !in Split(f).1
    ensures (Split(f).1 == []) == (f == [] || f[|f| - 1] == Sep)
  {
    var i := SepEnd(f);
    assert Split(f).1 == f[i..];
    if f != [] && f[|f| - 1] != Sep {
      assert i < |f|;
    }
  }

  /** `os.path.split` loses nothing: head and tail together name the original path. */
  lemma SplitComponents(f: string)
    ensures Components(f) == Components(Split(f).0) + Components(Split(f).1)
  {
    var i := SepEnd(f);
    var raw, tail := f[..i], f[i..];
    assert Split(f).1 == tail;
    assert f == raw + tail;
    if i == 0 {
      assert Split(f).0 == [];
      assert f == tail;
    } else {
      var r' := f[..i - 1];
      assert raw == r' + [Sep];
      assert f == r' + [Sep] + tail;
      ComponentsSlash(r', tail);
      ComponentsTrailingSep(r');
      if raw != [] && !AllSep(raw) {
        assert Split(f).0 == RStripSep(raw);
        ComponentsRStrip(raw);
      } else {
        assert Split(f).0 == raw;
      }
    }
  }

  /** The head `os.path.split` gives is absolute exactly when the path is. */
  lemma SplitAbsolute(f: string)
    ensures IsAbsolute(Split(f).0) == IsAbsolute(f)
  {
    var i := SepEnd(f);
    var raw := f[..i];
    var head := Split(f).0;
    if i == 0 {
      assert head == [];
      assert Sep !in f[i..];
      assert f == f[i..];
    } else if AllSep(raw) {
      assert head == raw;
    } else {
      assert head == RStripSep(raw);
      assert head != [];
      assert head[0] == raw[0] == f[0];
    }
  }

  /** The file path the teardown unlinks for a manifest entry:
      `join(join(prefix, head), tail)`. */
  function Destination(prefix: string, entry: string): string {
    var (head, tail) := Split(entry);
    Join(Join(prefix, head), tail)
  }

  /** The directory the teardown records for a manifest entry: `join(prefix, head)`. */
  function DirectoryOf(prefix: string, entry: string): string {
    Join(prefix, Split(entry).0)
  }

  /** Unlinking `join(join(prefix, head), tail)` reaches the same entry as
      `join(prefix, entry)`, and the recorded directory is its parent. */
  lemma DestinationResolves(prefix: string, entry: string)
    ensures Components(Destination(prefix, entry)) == EntryPath(prefix, entry)
    ensures Split(entry).1 != [] ==>
              Components(DirectoryOf(prefix, entry)) + [Split(entry).1] == EntryPath(prefix, entry)
  {
    var (head, tail) := Split(entry);
    SplitTail(entry);
    SplitComponents(entry);
    SplitAbsolute(entry);
    ComponentsJoin(prefix, head);
    ComponentsJoin(Join(prefix, head), tail);
    ComponentsNoSep(tail);
  }

  /** The unlinked string ends in a file name (it is non-empty and has no trailing
      separator) exactly when the manifest entry does. */
  lemma DestinationShape(prefix: string, entry: string)
    ensures var d := Destination(prefix, entry);
            (d != [] && d[|d| - 1] != Sep) == (entry != [] && entry[|entry| - 1] != Sep)
  {
    SplitTail(entry);
  }

  // ---------------------------------------------------------------------------
  // Well-formed relative entries and the length order of their directories.

  /** A relative path written without empty components: no leading, trailing or
      doubled separator. */
  predicate Clean(s: string) {
    s != [] && s[0] != Sep && s[|s| - 1] != Sep &&
    forall k :: 0 <= k < |s| - 1 ==> !DoubleSepAt(s, k)
  }

  predicate DoubleSepAt(s: string, k: int)
    requires 0 <= k < |s| - 1
  {
    s[k] == Sep && s[k + 1] == Sep
  }

  /** `'/'.join(cs)` */
  function JoinAll(cs: seq<string>): string
    requires cs != []
  {
    if |cs| == 1 then cs[0] else cs[0] + [Sep] + JoinAll(cs[1..])
  }

  /** What follows the first separator of a clean path is clean. */
  lemma CleanRest(s: string, n: nat)
    requires Clean(s) && n < |s| && s[n] == Sep
    ensures n + 1 < |s| && Clean(s[n + 1..])
  {
    assert n != |s| - 1;
    assert !DoubleSepAt(s, n);
    var rest := s[n + 1..];
    forall k | 0 <= k < |rest| - 1 ensures !DoubleSepAt(rest, k) {
      assert !DoubleSepAt(s, n + 1 + k);
    }
  }

  /** A path that starts with a name splits into that name and what follows the
      separator after it. */
  lemma ComponentsFirst(s: string)
    requires s != [] && s[0] != Sep
    ensures var n := SegmentLen(s);
            n == |s| ==> Components(s) == [s]
    ensures var n := SegmentLen(s);
            n < |s| ==> Components(s) == [s[..n]] + Components(s[n + 1..])
  {
    var n := SegmentLen(s);
    assert Components(s) == [s[..n]] + Components(s[n..]);
    if n == |s| {
      assert s[n..] == [];
      assert s[..n] == s;
    } else {
      assert s[n..][1..] == s[n + 1..];
    }
  }

  /** A clean path is spelled exactly by its components. */
  lemma {:induction false} CleanSpelledByComponents(s: string)
    requires Clean(s)
    ensures Components(s) != [] && JoinAll(Components(s)) == s
    decreases |s|
  {
    var n := SegmentLen(s);
    ComponentsFirst(s);
    if n < |s| {
      CleanRest(s, n);
      var rest := s[n + 1..];
      CleanSpelledByComponents(rest);
      JoinAllCons(s, n, Components(rest));
    }
  }

  /** Spelling a path that starts with the name `s[..n]` from that name and the rest. */
  lemma JoinAllCons(s: string, n: nat, t: seq<string>)
    requires n < |s| && s[n] == Sep && t != [] && JoinAll(t) == s[n + 1..]
    ensures JoinAll([s[..n]] + t) == s
  {
    assert ([s[..n]] + t)[1..] == t;
    assert s == s[..n] + [Sep] + s[n + 1..];
  }

  lemma {:induction false} JoinAllPrefix(cs: seq<string>, k: nat)
    requires 0 < k < |cs|
    ensures JoinAll(cs) == JoinAll(cs[..k]) + [Sep] + JoinAll(cs[k..])
    decreases k
  {
    if k > 1 {
      JoinAllPrefix(cs[1..], k - 1);
      assert cs[1..][..k - 1] == cs[..k][1..];
      assert cs[1..][k - 1..] == cs[k..];
    }
  }

  /** The head `os.path.split` gives for a clean entry is empty or clean. */
  lemma CleanHead(f: string)
    requires Clean(f)
    ensures Split(f).0 == [] || Clean(Split(f).0)
    ensures !IsAbsolute(Split(f).0)
  {
    var i := SepEnd(f);
    if i > 0 {
      var raw := f[..i];
      assert i >= 2;
      assert !DoubleSepAt(f, i - 2);
      assert !AllSep(raw) by { assert raw[0] == f[0]; }
      var h := f[..i - 1];
      assert raw[..|raw| - 1] == h;
      assert h[|h| - 1] != Sep;
      assert RStripSep(raw) == h;
      forall k | 0 <= k < |h| - 1 ensures !DoubleSepAt(h, k) {
        assert !DoubleSepAt(f, k);
      }
    }
  }

  /** Length of `join(prefix, h)` for a relative `h`. */
  lemma JoinLength(prefix: string, h: string)
    requires !IsAbsolute(h)
    ensures |Join(prefix, h)| ==
            |prefix| + (if prefix == [] || prefix[|prefix| - 1] == Sep then 0 else 1) + |h|
  {
  }

  /** For clean manifest entries, a recorded directory that lies strictly inside
      another recorded directory is the longer string of the two. */
  lemma DeeperDirectoryIsLonger(prefix: string, f1: string, f2: string)
    requires Clean(f1) && Clean(f2)
    requires var inner, outer := Components(DirectoryOf(prefix, f1)), Components(DirectoryOf(prefix, f2));
             |outer| < |inner| && inner[..|outer|] == outer
    ensures |DirectoryOf(prefix, f2)| < |DirectoryOf(prefix, f1)|
  {
    var h1, h2 := Split(f1).0, Split(f2).0;
    CleanHead(f1);
    CleanHead(f2);
    ComponentsJoin(prefix, h1);
    ComponentsJoin(prefix, h2);
    JoinLength(prefix, h1);
    JoinLength(prefix, h2);
    var c1, c2 := Components(h1), Components(h2);
    var cp := Components(prefix);
    assert (cp + c1)[..|cp + c2|] == cp + c2;
    assert c1[..|c2|] == (cp + c1)[..|cp + c2|][|cp|..];
    assert h1 != [];
    CleanSpelledByComponents(h1);
    if h2 != [] {
      CleanSpelledByComponents(h2);
      JoinAllPrefix(c1, |c2|);
    }
  }

  /** Without the clean-entry condition the length order can put a parent first:
      with a doubled separator in `x//////a/f`, its directory `x//////a` contains
      the directory `x/a/b` of `x/a/b/g` and is nevertheless the longer string. */
  lemma DoubledSeparatorParentIsLonger(prefix: string)
    ensures var outer, inner := DirectoryOf(prefix, "x//////a/f"), DirectoryOf(prefix, "x/a/b/g");
            Components(outer) == Components(prefix) + ["x", "a"] &&
            Components(inner) == Components(prefix) + ["x", "a", "b"] &&
            |outer| > |inner|
  {
    assert "x//////a/f" == "x//////a" + [Sep] + "f";
    assert "x/a/b/g" == "x/a/b" + [Sep] + "g";
    SplitHead("x//////a", "f");
    SplitHead("x/a/b", "g");
    ComponentsJoin(prefix, "x//////a");
    ComponentsJoin(prefix, "x/a/b");
    JoinLength(prefix, "x//////a");
    JoinLength(prefix, "x/a/b");
    DoubledComponents();
    NestedComponents();
  }

  /** What `x//////a` names. */
  lemma DoubledComponents()
    ensures Components("x//////a") == ["x", "a"]
  {
    assert "x//////a" == "x" + [Sep] + "/////a";
    ComponentsSlash("x", "/////a");
    ComponentsNoSep("x");
    assert "/////a"[1..] == "////a" && "////a"[1..] == "///a" && "///a"[1..] == "//a";
    assert "//a"[1..] == "/a" && "/a"[1..] == "a";
    ComponentsNoSep("a");
  }

  /** What `x/a/b` names. */
  lemma NestedComponents()
    ensures Components("x/a/b") == ["x", "a", "b"]
  {
    assert "x/a/b" == "x" + [Sep] + "a/b";
    assert "a/b" == "a" + [Sep] + "b";
    ComponentsSlash("x", "a/b");
    ComponentsSlash("a", "b");
    ComponentsNoSep("x");
    ComponentsNoSep("a");
    ComponentsNoSep("b");
  }

  /** `os.path.split(h + "/" + t)` has head `h` when `h` ends in a name and `t` holds
      no separator. */
  lemma SplitHead(h: string, t: string)
    requires h != [] && h[|h| - 1] != Sep && Sep !in t
    ensures Split(h + [Sep] + t).0 == h
  {
    var f := h + [Sep] + t;
    var i := SepEnd(f);
    assert f[|h|] == Sep;
    assert i == |h| + 1;
    assert f[..i] == h + [Sep];
    assert RStripSep(h + [Sep]) == RStripSep(h) == h by {
      assert (h + [Sep])[..|h|] == h;
    }
  }
}
