/** String operations the application performs on file names, paths and URLs.
    Strings are sequences of characters; each function models one JavaScript
    string idiom of the source. */
module Text {
  import opened Wrappers

  predicate StartsWith(s: string, prefix: string) {
    |prefix| <= |s| && s[..|prefix|] == prefix
  }

  predicate EndsWith(s: string, suffix: string) {
    |suffix| <= |s| && s[|s| - |suffix|..] == suffix
  }

  /** `pat` occurs in `s` starting at position `i`. */
  predicate OccursAt(s: string, pat: string, i: int) {
    0 <= i && i + |pat| <= |s| && s[i..i + |pat|] == pat
  }

  /** The first position at or after `from` where `pat` occurs (JavaScript `indexOf`). */
  function FirstOccurrence(s: string, pat: string, from: nat): (r: Option<nat>)
    ensures r.Some? ==> from <= r.value && OccursAt(s, pat, r.value)
    ensures forall j :: from <= j && (r.None? || j < r.value) ==> !OccursAt(s, pat, j)
    decreases |s| - from
  {
    if from + |pat| > |s| then None
    else if s[from..from + |pat|] == pat then Some(from)
    else FirstOccurrence(s, pat, from + 1)
  }

  /** JavaScript `s.replace(pat, "")` with a string pattern: only the FIRST
      occurrence of `pat` is removed, wherever it is; no occurrence leaves `s` as is. */
  function RemoveFirst(s: string, pat: string): (r: string)
    ensures (forall j :: !OccursAt(s, pat, j)) ==> r == s
    ensures StartsWith(s, pat) ==> r == s[|pat|..]
    ensures forall i :: OccursAt(s, pat, i) && (forall j :: 0 <= j < i ==> !OccursAt(s, pat, j)) ==>
      r == s[..i] + s[i + |pat|..]
    ensures |r| == |s| || |r| == |s| - |pat|
  {
    var first := FirstOccurrence(s, pat, 0);
    if StartsWith(s, pat) then
      assert OccursAt(s, pat, 0);
      s[|pat|..]
    else match first
      case None => s
      case Some(i) => s[..i] + s[i + |pat|..]
  }

  /** The text after the last `c` of `s`, or all of `s` when `c` does not occur
      (`s.substring(s.lastIndexOf(c) + 1)` guarded by `s.includes(c)`). */
  function AfterLast(s: string, c: char): (r: string)
    ensures c !in r
    ensures |r| <= |s| && r == s[|s| - |r|..]
    ensures |r| < |s| ==> s[|s| - |r| - 1] == c
  {
    if |s| == 0 then ""
    else if s[|s| - 1] == c then ""
    else AfterLast(s[..|s| - 1], c) + [s[|s| - 1]]
  }

  /** The text before the first `c` of `s`, or all of `s` (`s.split(c)[0]`). */
  function BeforeFirst(s: string, c: char): (r: string)
    ensures c !in r
    ensures |r| <= |s| && r == s[..|r|]
    ensures |r| < |s| ==> s[|r|] == c
  {
    if |s| == 0 then ""
    else if s[0] == c then ""
    else [s[0]] + BeforeFirst(s[1..], c)
  }

  /** The file-name cleaning the application applies to a path or URL: keep the
      text after the last `/`, then cut it at the first `?`. */
  function BaseName(s: string): (r: string)
    ensures '/' !in r && '?' !in r
    ensures |r| <= |s|
  {
    BeforeFirst(AfterLast(s, '/'), '?')
  }

  /** A name with neither separator is already clean. */
  lemma {:induction false} BaseNamePlain(s: string)
    requires '/' !in s && '?' !in s
    ensures BaseName(s) == s
  {
    AfterLastAbsent(s, '/');
    BeforeFirstAbsent(s, '?');
  }

  /** Cleaning is idempotent. */
  lemma BaseNameIdempotent(s: string)
    ensures BaseName(BaseName(s)) == BaseName(s)
  {
    BaseNamePlain(BaseName(s));
  }

  /** The directory part of a path is dropped. */
  lemma {:induction false} BaseNameOfPath(dir: string, name: string)
    requires '/' !in name && '?' !in name
    ensures BaseName(dir + "/" + name) == name
  {
    AfterLastAppend(dir, name, '/');
    BeforeFirstAbsent(name, '?');
  }

  /** The directory part and a `/`-free query suffix of a URL are both dropped. */
  lemma {:induction false} BaseNameOfUrl(dir: string, name: string, query: string)
    requires '/' !in name && '?' !in name && '/' !in query
    ensures BaseName(dir + "/" + name + "?" + query) == name
  {
    var withQuery := name + "?" + query;
    assert dir + "/" + name + "?" + query == dir + "/" + withQuery;
    assert '/' !in withQuery by {
      forall i | 0 <= i < |withQuery| ensures withQuery[i] != '/' {
        if i < |name| { assert withQuery[i] == name[i]; }
        else if i > |name| { assert withQuery[i] == query[i - |name| - 1]; }
      }
    }
    AfterLastAppend(dir, withQuery, '/');
    assert withQuery == name + ['?'] + query;
    BeforeFirstAt(name, query, '?');
  }

  lemma {:induction false} AfterLastAbsent(s: string, c: char)
    requires c !in s
    ensures AfterLast(s, c) == s
  {
    if |s| > 0 {
      AfterLastAbsent(s[..|s| - 1], c);
      assert s == s[..|s| - 1] + [s[|s| - 1]];
    }
  }

  lemma {:induction false} BeforeFirstAbsent(s: string, c: char)
    requires c !in s
    ensures BeforeFirst(s, c) == s
  {
    if |s| > 0 {
      BeforeFirstAbsent(s[1..], c);
      assert s == [s[0]] + s[1..];
    }
  }

  /** Appending `c` and a `c`-free tail makes that tail the text after the last `c`. */
  lemma {:induction false} AfterLastAppend(prefix: string, tail: string, c: char)
    requires c !in tail
    ensures AfterLast(prefix + [c] + tail, c) == tail
    decreases |tail|
  {
    var s := prefix + [c] + tail;
    if |tail| == 0 {
      assert s[|s| - 1] == c;
    } else {
      assert s[..|s| - 1] == prefix + [c] + tail[..|tail| - 1];
      AfterLastAppend(prefix, tail[..|tail| - 1], c);
      assert tail == tail[..|tail| - 1] + [tail[|tail| - 1]];
    }
  }

  lemma {:induction false} BeforeFirstAt(head: string, rest: string, c: char)
    requires c !in head
    ensures BeforeFirst(head + [c] + rest, c) == head
  {
    var s := head + [c] + rest;
    if |head| > 0 {
      assert s[0] == head[0];
      assert s[1..] == head[1..] + [c] + rest;
      BeforeFirstAt(head[1..], rest, c);
      assert head == [head[0]] + head[1..];
    } else {
      assert s[0] == c;
    }
  }

  /** The regular expression `/\.[^/.]+$/` matches at position `k` of `s`: a dot
      followed, up to the end, by at least one character that is neither `/` nor `.`. */
  predicate ExtensionAt(s: string, k: int) {
    0 <= k < |s| - 1 && s[k] == '.' && forall j :: k < j < |s| ==> s[j] != '/' && s[j] != '.'
  }

  /** `name.replace(/\.[^/.]+$/, "")`: drop one trailing extension, if there is one. */
  function StripExtension(s: string): (r: string)
    ensures |r| <= |s| && r == s[..|r|]
    ensures r != s ==> ExtensionAt(s, |r|)
    ensures r == s ==> forall k :: 0 <= k < |s| ==> !ExtensionAt(s, k)
  {
    var ext := AfterLast(s, '.');
    if |ext| < |s| && |ext| > 0 && '/' !in ext then
      var k := |s| - |ext| - 1;
      assert forall j :: k < j < |s| ==> s[j] == ext[j - k - 1];
      s[..k]
    else
      NoExtension(s, ext);
      s
  }

  lemma NoExtension(s: string, ext: string)
    requires '.' !in ext && |ext| <= |s| && ext == s[|s| - |ext|..]
    requires |ext| < |s| ==> s[|s| - |ext| - 1] == '.'
    requires !(|ext| < |s| && |ext| > 0 && '/' !in ext)
    ensures forall k :: 0 <= k < |s| ==> !ExtensionAt(s, k)
  {
    if |ext| == |s| {
      NoDot(s);
    } else if |ext| == 0 {
      forall k | 0 <= k < |s| ensures !ExtensionAt(s, k) {
        if k < |s| - 1 { BlockedAfter(s, |s| - 1, k); }
      }
    } else {
      var d := |s| - |ext| - 1;
      var m :| 0 <= m < |ext| && ext[m] == '/';
      SlashInExtension(s, ext, d, m);
    }
  }

  lemma NoDot(s: string)
    requires '.' !in s
    ensures forall k :: 0 <= k < |s| ==> !ExtensionAt(s, k)
  {
  }

  lemma SlashInExtension(s: string, ext: string, d: int, m: int)
    requires 0 <= d && d + 1 + |ext| == |s| && ext == s[d + 1..]
    requires '.' !in ext && 0 <= m < |ext| && ext[m] == '/'
    ensures forall k :: 0 <= k < |s| ==> !ExtensionAt(s, k)
  {
    forall k | 0 <= k < |s| ensures !ExtensionAt(s, k) {
      assert s[d + 1 + m] == ext[m];
      if k < d + 1 + m {
        BlockedAfter(s, d + 1 + m, k);
      } else {
        assert s[k] == ext[k - d - 1];
      }
    }
  }

  /** A `/` or `.` after position `k` stops the extension pattern from matching at `k`. */
  lemma BlockedAfter(s: string, p: int, k: int)
    requires 0 <= k < p < |s| && (s[p] == '/' || s[p] == '.')
    ensures !ExtensionAt(s, k)
  {
  }

  /** The default-name examples: one extension is dropped, and only one. */
  lemma StripExtensionDropsOne()
    ensures StripExtension("a.png") == "a"
    ensures StripExtension("x.tar.gz") == "x.tar"
  {
    ExtensionPinned("a.png", 1);
    ExtensionPinned("x.tar.gz", 5);
  }

  /** A dot inside a directory name, or a dot with nothing after it, is not an extension. */
  lemma StripExtensionKeeps()
    ensures StripExtension("notes.d/readme") == "notes.d/readme"
    ensures StripExtension("a.") == "a."
  {
    var t := "notes.d/readme";
    assert t[7] == '/';
    BlockedAfter("a.", 1, 0);
  }

  /** If the pattern matches at `k`, stripping cuts exactly there. */
  lemma ExtensionPinned(s: string, k: int)
    requires ExtensionAt(s, k)
    ensures StripExtension(s) == s[..k]
  {
    var r := StripExtension(s);
    assert r != s;
    UniqueExtension(s, k, |r|);
  }

  /** The extension pattern matches at most one position. */
  lemma UniqueExtension(s: string, a: int, b: int)
    requires ExtensionAt(s, a) && ExtensionAt(s, b)
    ensures a == b
  {
  }
}
