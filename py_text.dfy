/** The few Python string and path primitives the trainer relies on:
    `str.split(sep)` with a one-character separator, `sep.join(parts)`,
    the slices `s[:-k]` and `s[k:]`, `str.startswith` and the POSIX
    `os.path.join` of two arguments. Strings are sequences of characters. */
module PyText {

  /** Number of occurrences of `c` in `s`. */
  function Count(s: string, c: char): nat
  {
    if |s| == 0 then 0 else (if s[0] == c then 1 else 0) + Count(s[1..], c)
  }

  /** `s.split(sep)`: the maximal runs of `s` free of `sep`, in order.
      Like Python, it never returns an empty list: `"".split("/") == [""]`. */
  function Split(s: string, sep: char): (parts: seq<string>)
    ensures |parts| >= 1
    ensures forall i :: 0 <= i < |parts| ==> sep !in parts[i]
    decreases |s|
  {
    if |s| == 0 then [""]
    else
      var rest := Split(s[1..], sep);
      if s[0] == sep then [""] + rest
      else [[s[0]] + rest[0]] + rest[1..]
  }

  /** `sep.join(parts)`: the first part opens the text, and the last part
      closes it, after a separator when there are two parts or more. */
  function Join(parts: seq<string>, sep: char): (r: string)
  {
    if |parts| == 0 then ""
    else if |parts| == 1 then parts[0]
    else parts[0] + [sep] + Join(parts[1..], sep)
  }

  /** `s.startswith(prefix)`: `prefix` is a prefix of `s`. */
  predicate StartsWith(s: string, prefix: string)
    ensures StartsWith(s, prefix) <==> prefix <= s
  {
    |prefix| <= |s| && s[..|prefix|] == prefix
  }

  /** `s.endswith(suffix)`. */
  predicate EndsWith(s: string, suffix: string)
  {
    |suffix| <= |s| && s[|s| - |suffix|..] == suffix
  }

  predicate EndsWithChar(s: string, c: char)
  {
    |s| > 0 && s[|s| - 1] == c
  }

  /** Python `s[:-k]` for `k > 0`: everything but the last `k` characters,
      or the empty string when `s` is shorter than that. */
  function DropLast(s: string, k: nat): (r: string)
    requires k > 0
    ensures |r| == if |s| >= k then |s| - k else 0
    ensures r <= s
  {
    if |s| >= k then s[..|s| - k] else ""
  }

  /** Python `s[k:]`: everything from index `k`, or the empty string when
      `s` is shorter than `k`. */
  function DropFirst(s: string, k: nat): (r: string)
    ensures |r| == if |s| >= k then |s| - k else 0
    ensures |s| >= k ==> s == s[..k] + r
  {
    if |s| >= k then s[k..] else ""
  }

  /** `os.path.join(a, b)` on POSIX: an absolute `b` replaces `a`; otherwise
      `b` is appended to `a`, with a `/` in between unless `a` is empty or
      already ends with one. */
  function PosixJoin(a: string, b: string): (r: string)
    ensures StartsWith(b, "/") ==> r == b
    ensures !StartsWith(b, "/") ==> r == a + b || r == a + "/" + b
    ensures !StartsWith(b, "/") && a == "" ==> r == b
    ensures !StartsWith(b, "/") && a != "" ==> (r == a + b <==> EndsWithChar(a, '/'))
  {
    if StartsWith(b, "/") then b
    else if a == "" || EndsWithChar(a, '/') then a + b
    else a + "/" + b
  }

  /** A relative `b` joined onto a non-empty `a` always follows a `/`:
      the one `a` ends with, or the one inserted, never two added. */
  lemma PosixJoinSlashBefore(a: string, b: string)
    requires a != "" && !StartsWith(b, "/")
    ensures var r := PosixJoin(a, b);
      |b| < |r| && r[|r| - |b|..] == b && EndsWithChar(r[..|r| - |b|], '/')
  {
    var r := PosixJoin(a, b);
    if EndsWithChar(a, '/') {
      assert r[..|r| - |b|] == a;
    } else {
      assert r[..|r| - |b|] == a + "/";
    }
  }

  /** Nesting `os.path.join` to the right, as `os.path.join(bucket,
      os.path.join(path, name))` does, gives the same text as joining left
      to right, which is what `os.path.join(bucket, path, name)` does. */
  lemma PosixJoinNested(a: string, b: string, c: string)
    ensures PosixJoin(a, PosixJoin(b, c)) == PosixJoin(PosixJoin(a, b), c)
  {
    if StartsWith(c, "/") {
    } else if StartsWith(b, "/") {
      var bc := PosixJoin(b, c);
      assert bc[..1] == b[..1];
    } else if b == "" {
      assert PosixJoin(b, c) == c;
      if a != "" && !EndsWithChar(a, '/') {
        var ab := a + "/";
        assert PosixJoin(a, b) == ab && EndsWithChar(ab, '/');
      }
    } else {
      PosixJoinNestedRelative(a, b, c);
    }
  }

  /** The separator `os.path.join` puts after `a` before a relative part. */
  function Sep(a: string): string
  {
    if a == "" || EndsWithChar(a, '/') then "" else "/"
  }

  lemma JoinRelative(a: string, b: string)
    requires !StartsWith(b, "/")
    ensures PosixJoin(a, b) == a + Sep(a) + b
  {
  }

  /** The case of a non-empty relative middle part: both sides are `a`,
      its separator, `b`, its separator and `c`. */
  lemma PosixJoinNestedRelative(a: string, b: string, c: string)
    requires !StartsWith(c, "/") && !StartsWith(b, "/") && b != ""
    ensures PosixJoin(a, PosixJoin(b, c)) == PosixJoin(PosixJoin(a, b), c)
  {
    var bc := b + Sep(b) + c;
    var ab := a + Sep(a) + b;
    JoinRelative(b, c);
    JoinRelative(a, b);
    assert bc[0] == b[0] && b[0] != '/';
    JoinRelative(a, bc);
    assert ab[|ab| - 1] == b[|b| - 1];
    assert Sep(ab) == Sep(b);
    JoinRelative(ab, c);
    SeqRegroup(a + Sep(a), b, Sep(b), c);
  }

  lemma SeqRegroup(x: string, y: string, z: string, w: string)
    ensures x + (y + z + w) == x + y + z + w
  {
  }

  /** Splitting never loses or adds a character: the parts joined back with
      the separator give the original text. */
  lemma {:induction false} JoinSplit(s: string, sep: char)
    ensures Join(Split(s, sep), sep) == s
    decreases |s|
  {
    if |s| > 0 {
      var rest := Split(s[1..], sep);
      JoinSplit(s[1..], sep);
      if s[0] == sep {
        assert Split(s, sep) == [""] + rest;
        assert ([""] + rest)[1..] == rest;
        assert s == [sep] + s[1..];
      } else {
        var parts := Split(s, sep);
        assert parts == [[s[0]] + rest[0]] + rest[1..];
        if |rest| == 1 {
          assert s == [s[0]] + s[1..];
        } else {
          assert parts[1..] == rest[1..];
          assert Join(rest, sep) == rest[0] + [sep] + Join(rest[1..], sep);
          assert s == [s[0]] + s[1..];
        }
      }
    }
  }

  /** Text free of the separator splits into itself alone. */
  lemma {:induction false} SplitNoSep(s: string, sep: char)
    requires sep !in s
    ensures Split(s, sep) == [s]
    decreases |s|
  {
    if |s| > 0 {
      assert sep !in s[1..] by {
        forall i | 0 <= i < |s[1..]| ensures s[1..][i] != sep {
          assert s[1..][i] == s[i + 1];
        }
      }
      SplitNoSep(s[1..], sep);
      assert [s[0]] + s[1..] == s;
    }
  }

  /** A separator after a separator-free head starts a new part. */
  lemma {:induction false} SplitAfterHead(a: string, sep: char, b: string)
    requires sep !in a
    ensures Split(a + [sep] + b, sep) == [a] + Split(b, sep)
    decreases |a|
  {
    var s := a + [sep] + b;
    if |a| == 0 {
      assert s == [sep] + b;
      assert s[1..] == b;
    } else {
      assert s[1..] == a[1..] + [sep] + b;
      assert sep !in a[1..] by {
        forall i | 0 <= i < |a[1..]| ensures a[1..][i] != sep {
          assert a[1..][i] == a[i + 1];
        }
      }
      SplitAfterHead(a[1..], sep, b);
      assert [a[0]] + a[1..] == a;
    }
  }

  /** Joining separator-free parts and splitting again gives the parts back. */
  lemma {:induction false} SplitJoin(parts: seq<string>, sep: char)
    requires |parts| >= 1
    requires forall i :: 0 <= i < |parts| ==> sep !in parts[i]
    ensures Split(Join(parts, sep), sep) == parts
    decreases |parts|
  {
    if |parts| == 1 {
      SplitNoSep(parts[0], sep);
    } else {
      SplitJoin(parts[1..], sep);
      SplitAfterHead(parts[0], sep, Join(parts[1..], sep));
      assert [parts[0]] + parts[1..] == parts;
    }
  }

  /** Joining two non-empty lists of parts puts one separator between them. */
  lemma {:induction false} JoinAppend(xs: seq<string>, ys: seq<string>, sep: char)
    requires |xs| >= 1 && |ys| >= 1
    ensures Join(xs + ys, sep) == Join(xs, sep) + [sep] + Join(ys, sep)
    decreases |xs|
  {
    if |xs| == 1 {
      assert (xs + ys)[1..] == ys;
    } else {
      assert (xs + ys)[1..] == xs[1..] + ys;
      JoinAppend(xs[1..], ys, sep);
    }
  }

  /** With two parts or more, the joined text ends with a separator and the
      last part. */
  lemma {:induction false} JoinLast(parts: seq<string>, sep: char)
    requires |parts| >= 2
    ensures EndsWith(Join(parts, sep), [sep] + parts[|parts| - 1])
    decreases |parts|
  {
    var last := parts[|parts| - 1];
    var j := Join(parts, sep);
    assert j == parts[0] + [sep] + Join(parts[1..], sep);
    if |parts| == 2 {
      assert parts[1..] == [last];
      assert j[|j| - |last| - 1..] == [sep] + last;
    } else {
      JoinLast(parts[1..], sep);
      var k := Join(parts[1..], sep);
      assert j[|j| - |last| - 1..] == k[|k| - |last| - 1..];
    }
  }

  /** `s.split(sep)` has exactly one more part than `s` has separators. */
  lemma {:induction false} SplitLength(s: string, sep: char)
    ensures |Split(s, sep)| == Count(s, sep) + 1
    decreases |s|
  {
    if |s| > 0 {
      SplitLength(s[1..], sep);
    }
  }
}
