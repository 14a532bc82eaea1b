/**
 * The file-name helpers of misc.c: `str_dupcat`, `str_dupcatdir` and `strip_path`. A C string
 * that may be `NULL` is an `Option<string>`; the global `convpng.directory` is the parameter
 * `directory`. `safe_malloc` aborts instead of returning `NULL`, so a copy always exists.
 */
module Paths {
  import opened Bytes

  /** The text of a string that may be `NULL`, the empty text for `NULL`. */
  function Text(s: Option<string>): string
  {
    if s.Some? then s.value else ""
  }

  /**
   * `str_dupcat`: a fresh copy of `s` followed by `c`; a `NULL` on either side is a copy of
   * the other. Both `NULL` would pass `NULL` to `strlen`, which C leaves undefined.
   */
  function StrDupCat(s: Option<string>, c: Option<string>): (r: string)
    requires s.Some? || c.Some?
    ensures r == Text(s) + Text(c)
  {
    if s.None? then c.value
    else if c.None? then s.value
    else s.value + c.value
  }

  /** `str_dupcatdir`: `s` followed by `c`, put behind the output directory when one is set. */
  function StrDupCatDir(s: Option<string>, c: Option<string>, directory: Option<string>): (r: string)
    requires s.Some? || c.Some?
    ensures r == Text(directory) + Text(s) + Text(c)
  {
    var d := StrDupCat(s, c);
    if directory.Some? then StrDupCat(directory, Some(d)) else d
  }

  /** `strrchr(s, '/')`: the position of the last slash of `s`, if it has one. */
  function LastSlash(s: string): (r: Option<nat>)
    ensures r.Some? ==> r.value < |s| && s[r.value] == '/'
    ensures r.Some? ==> forall k :: r.value < k < |s| ==> s[k] != '/'
    ensures r.None? ==> forall k :: 0 <= k < |s| ==> s[k] != '/'
  {
    if s == [] then None
    else if s[|s| - 1] == '/' then Some(|s| - 1)
    else LastSlash(s[..|s| - 1])
  }

  /**
   * `strip_path`: with an output directory set, the part of `name` after its last slash (all
   * of it when it has none); without one, `name` itself. `NULL` stays `NULL`.
   */
  function StripPath(name: Option<string>, directory: Option<string>): (r: Option<string>)
    ensures r.Some? <==> name.Some?
    ensures directory.None? ==> r == name
    ensures name.Some? ==> |r.value| <= |name.value| && name.value[|name.value| - |r.value|..] == r.value
    ensures name.Some? && directory.Some? ==> forall k :: 0 <= k < |r.value| ==> r.value[k] != '/'
    ensures name.Some? && directory.Some? && |r.value| < |name.value| ==>
              name.value[|name.value| - |r.value| - 1] == '/'
  {
    match name
    case None => None
    case Some(n) =>
      if directory.None? then name
      else match LastSlash(n)
        case None => name
        case Some(i) => Some(n[i + 1..])
  }

  /**
   * The name `strip_path` keeps is the one behind the last slash: a file name without a slash
   * after a path that ends in one comes back alone.
   */
  lemma StripPathAfterSlash(path: string, file: string, directory: Option<string>)
    requires directory.Some? && |path| > 0 && path[|path| - 1] == '/'
    requires forall k :: 0 <= k < |file| ==> file[k] != '/'
    ensures StripPath(Some(path + file), directory) == Some(file)
  {
    LastSlashAfter(path, file);
    assert (path + file)[|path|..] == file;
  }

  /** The last slash of a path that ends in one, followed by a name without one, ends the path. */
  lemma {:induction false} LastSlashAfter(path: string, file: string)
    requires |path| > 0 && path[|path| - 1] == '/'
    requires forall k :: 0 <= k < |file| ==> file[k] != '/'
    ensures LastSlash(path + file) == Some(|path| - 1)
    decreases |file|
  {
    if file == [] {
      assert path + file == path;
    } else {
      var init := file[..|file| - 1];
      LastSlashAfter(path, init);
      assert (path + file)[..|path + file| - 1] == path + init;
    }
  }

  /** Stripping twice strips nothing more. */
  lemma StripPathIdempotent(name: Option<string>, directory: Option<string>)
    ensures StripPath(StripPath(name, directory), directory) == StripPath(name, directory)
  {
    var once := StripPath(name, directory);
    if name.Some? && directory.Some? {
      var twice := StripPath(once, directory);
      assert |twice.value| == |once.value|;
    }
  }
}
