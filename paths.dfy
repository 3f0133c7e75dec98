/**
 * Naming of the files the downloader writes (internal/service/download.go,
 * DownloadFile): "files/" + "task_" + <task id> + "_" + path.Base(<url>).
 * Base follows the documented behaviour of Go's path.Base.
 */
module Paths {

  /** The directory every downloaded file is created in. */
  const OutputDir: string := "files/"

  /** Prefix of every output file name, before the task id. */
  const FilePrefix: string := "task_"

  /** True when every character of `s` is a '/'. */
  predicate AllSlashes(s: string) {
    forall i :: 0 <= i < |s| ==> s[i] == '/'
  }

  /** `s` with its trailing '/' characters removed. */
  function TrimTrailingSlashes(s: string): (r: string)
    ensures r <= s
    ensures r == [] || r[|r| - 1] != '/'
    ensures AllSlashes(s[|r|..])
  {
    if s != [] && s[|s| - 1] == '/' then TrimTrailingSlashes(s[..|s| - 1]) else s
  }

  /** The part of `s` after its last '/'; all of `s` when it holds none. */
  function AfterLastSlash(s: string): (r: string)
    ensures '/' !in r
  {
    if s == [] || s[|s| - 1] == '/' then []
    else AfterLastSlash(s[..|s| - 1]) + [s[|s| - 1]]
  }

  /** AfterLastSlash(s) is the end of `s`, and the character before it, if any, is a '/'. */
  lemma {:induction false} AfterLastSlashIsSuffix(s: string)
    ensures var r := AfterLastSlash(s);
      |r| <= |s| && r == s[|s| - |r|..] && (|r| < |s| ==> s[|s| - |r| - 1] == '/')
    decreases |s|
  {
    if s != [] && s[|s| - 1] != '/' {
      var init := s[..|s| - 1];
      AfterLastSlashIsSuffix(init);
      var r0 := AfterLastSlash(init);
      assert AfterLastSlash(s) == r0 + [s[|s| - 1]];
      assert s[|s| - |r0| - 1..] == init[|init| - |r0|..] + [s[|s| - 1]];
    }
  }

  /**
   * Go's path.Base: the last element of `p`. Trailing slashes are ignored,
   * the empty path gives ".", and a path of slashes only gives "/".
   */
  function Base(p: string): (b: string)
    ensures b != []
    ensures p == [] ==> b == "."
    ensures p != [] && AllSlashes(p) ==> b == "/"
    ensures p != [] && !AllSlashes(p) ==> '/' !in b
  {
    if p == [] then "."
    else
      var last := AfterLastSlash(TrimTrailingSlashes(p));
      if last == [] then "/" else last
  }

  /** A path made of a directory part, one element and trailing slashes has that element as its Base. */
  lemma {:induction false} BaseOfElement(dir: string, name: string, slashes: string)
    requires dir == [] || dir[|dir| - 1] == '/'
    requires name != [] && '/' !in name
    requires AllSlashes(slashes)
    ensures Base(dir + name + slashes) == name
  {
    var p := dir + name + slashes;
    TrimSlashesOf(dir + name, slashes);
    assert TrimTrailingSlashes(p) == dir + name;
    AfterLastSlashOf(dir, name);
  }

  lemma {:induction false} TrimSlashesOf(s: string, slashes: string)
    requires s != [] && s[|s| - 1] != '/'
    requires AllSlashes(slashes)
    ensures TrimTrailingSlashes(s + slashes) == s
    decreases |slashes|
  {
    if slashes == [] {
      assert s + slashes == s;
    } else {
      var shorter := slashes[..|slashes| - 1];
      assert (s + slashes)[..|s + slashes| - 1] == s + shorter;
      TrimSlashesOf(s, shorter);
    }
  }

  lemma {:induction false} AfterLastSlashOf(dir: string, name: string)
    requires dir == [] || dir[|dir| - 1] == '/'
    requires '/' !in name
    ensures AfterLastSlash(dir + name) == name
    decreases |name|
  {
    if name == [] {
      assert dir + name == dir;
    } else {
      var s := dir + name;
      var init, last := name[..|name| - 1], name[|name| - 1];
      assert last in name;
      assert s[|s| - 1] == last;
      assert s[..|s| - 1] == dir + init;
      AfterLastSlashOf(dir, init);
      assert AfterLastSlash(s) == init + [last];
      assert init + [last] == name;
    }
  }

  /**
   * The file DownloadFile creates for `url` on behalf of the task `taskId`.
   * It lies in the output directory, its name starts with "task_" and the id,
   * and, unless the URL is empty or made of slashes only, no '/' of the URL
   * leaks into the name: the file sits directly in that directory.
   */
  function OutputPath(taskId: string, url: string): (p: string)
    ensures OutputDir + FilePrefix + taskId + "_" < p
    ensures '/' !in taskId && !AllSlashes(url) ==> '/' !in p[|OutputDir|..]
  {
    OutputDir + FilePrefix + taskId + "_" + Base(url)
  }

  /** Position of the first `c` in `s`; |s| when there is none. */
  function IndexOf(s: string, c: char): (k: nat)
    ensures k <= |s|
    ensures c !in s[..k]
    ensures k < |s| ==> s[k] == c
  {
    if s == [] || s[0] == c then 0 else 1 + IndexOf(s[1..], c)
  }

  /** In `a + "_" + r` with no '_' in `a`, the first '_' is the one right after `a`. */
  lemma {:induction false} IndexOfDelimiter(a: string, r: string)
    requires '_' !in a
    ensures IndexOf(a + "_" + r, '_') == |a|
    decreases |a|
  {
    if a != [] {
      assert (a + "_" + r)[1..] == a[1..] + "_" + r;
      IndexOfDelimiter(a[1..], r);
    }
  }

  /** Two ids without '_' that are each followed by '_' in one string are the same id. */
  lemma UnderscoreDelimited(a: string, ra: string, b: string, rb: string)
    requires '_' !in a && '_' !in b
    requires a + "_" + ra == b + "_" + rb
    ensures a == b
  {
    var s := a + "_" + ra;
    IndexOfDelimiter(a, ra);
    IndexOfDelimiter(b, rb);
    assert a == s[..|a|] == b;
  }

  /**
   * Files of two different tasks never collide, whatever their URLs, as long
   * as task ids hold no '_' (the textual form of a UUID is hexadecimal digits
   * and '-').
   */
  lemma DistinctTasksDistinctFiles(id1: string, url1: string, id2: string, url2: string)
    requires '_' !in id1 && '_' !in id2
    requires id1 != id2
    ensures OutputPath(id1, url1) != OutputPath(id2, url2)
  {
    DistinctIdsDistinctNames(OutputDir + FilePrefix, id1, Base(url1), id2, Base(url2));
  }

  lemma DistinctIdsDistinctNames(pre: string, id1: string, b1: string, id2: string, b2: string)
    requires '_' !in id1 && '_' !in id2
    requires id1 != id2
    ensures pre + id1 + "_" + b1 != pre + id2 + "_" + b2
  {
    var r1 := id1 + "_" + b1;
    var r2 := id2 + "_" + b2;
    assert pre + id1 + "_" + b1 == pre + r1;
    assert pre + id2 + "_" + b2 == pre + r2;
    if pre + r1 == pre + r2 {
      assert r1 == (pre + r1)[|pre|..];
      assert r2 == (pre + r2)[|pre|..];
      UnderscoreDelimited(id1, b1, id2, b2);
    }
  }

  /**
   * Within one task, two URLs that end in the same element write the same
   * file: the naming scheme only separates tasks.
   */
  lemma SameTaskSameElementCollide(id: string, url1: string, url2: string)
    requires Base(url1) == Base(url2)
    ensures OutputPath(id, url1) == OutputPath(id, url2)
  {
  }

  /**
   * For a URL whose last element is `name` (such as "http://x/" + "a.txt"),
   * the file is "files/task_<id>_<name>".
   */
  lemma {:induction false} OutputPathOfUrl(id: string, dir: string, name: string)
    requires dir == [] || dir[|dir| - 1] == '/'
    requires name != [] && '/' !in name
    ensures OutputPath(id, dir + name) == OutputDir + FilePrefix + id + "_" + name
  {
    BaseOfElement(dir, name, []);
    assert dir + name + [] == dir + name;
  }
}
