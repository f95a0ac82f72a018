/**
 * The extension filter of the fzp validator (`isExtFzp` in main.go) and the
 * part of Go's `filepath.Ext` it relies on, for a system whose only path
 * separator is '/'.
 */
module Ext {

  const Separator: char := '/'

  /** The extension the directory walk looks for. */
  const FzpExt: string := ".fzp"

  /** `s` ends with `suffix`. */
  predicate EndsWith(s: string, suffix: string) {
    |suffix| <= |s| && s[|s| - |suffix|..] == suffix
  }

  /**
   * `filepath.Ext`'s scan, with the characters from index `i` on already
   * passed over: it walks backwards from `i`, stops with no extension at a
   * separator or the start, and at the first '.' returns the rest of `path`.
   */
  function ScanExt(path: string, i: nat): (ext: string)
    requires i <= |path|
    requires forall k :: i <= k < |path| ==> path[k] != '.' && path[k] != Separator
    ensures ext != [] ==> EndsWith(path, ext) && |ext| > |path| - i && ext[0] == '.'
    ensures ext != [] ==> forall k :: 0 < k < |ext| ==> ext[k] != '.' && ext[k] != Separator
    ensures ext == [] ==>
      forall k :: 0 <= k < |path| && path[k] == '.' ==> Separator in path[k + 1..]
  {
    if i == 0 then []
    else if path[i - 1] == Separator then
      assert forall k :: 0 <= k < i - 1 && path[k] == '.' ==> Separator in path[k + 1..] by {
        forall k | 0 <= k < i - 1 && path[k] == '.' ensures Separator in path[k + 1..] {
          assert path[k + 1..][i - 2 - k] == path[i - 1];
        }
      }
      []
    else if path[i - 1] == '.' then path[i - 1..]
    else ScanExt(path, i - 1)
  }

  /**
   * `filepath.Ext`: the suffix of `path` from the last '.' of its final
   * element, or empty when that element has no '.'.
   */
  function Ext(path: string): (ext: string)
    ensures ext != [] ==> EndsWith(path, ext) && ext[0] == '.'
    ensures ext != [] ==> forall k :: 0 < k < |ext| ==> ext[k] != '.' && ext[k] != Separator
    ensures ext == [] ==>
      forall k :: 0 <= k < |path| && path[k] == '.' ==> Separator in path[k + 1..]
  {
    ScanExt(path, |path|)
  }

  /** `filepath.Ext` yields ".fzp" exactly for the names ending in ".fzp". */
  lemma ExtIsFzpIffEndsWith(name: string)
    ensures Ext(name) == FzpExt <==> EndsWith(name, FzpExt)
  {
    var ext := Ext(name);
    if EndsWith(name, FzpExt) {
      var n := |name|;
      assert name[n - 4..] == FzpExt;
      assert name[n - 4] == '.' && name[n - 3] == 'f' && name[n - 2] == 'z' && name[n - 1] == 'p';
      assert Separator !in name[n - 3..];
      assert ext != [];
      assert ext == name[n - |ext|..];
    }
  }

  /**
   * isExtFzp: a directory entry is validated exactly when its name ends in
   * ".fzp", matched case-sensitively.
   */
  function IsExtFzp(name: string): (b: bool)
    ensures b <==> EndsWith(name, FzpExt)
  {
    ExtIsFzpIffEndsWith(name);
    Ext(name) == FzpExt
  }

  /** Names that are and are not picked up by the directory walk. */
  lemma IsExtFzpExamples()
    ensures IsExtFzp("a.fzp") && IsExtFzp(".fzp") && IsExtFzp("dir.fzp")
    ensures !IsExtFzp("a.fzp.bak") && !IsExtFzp("a.FZP") && !IsExtFzp("fzp")
    ensures !IsExtFzp("a.fz") && !IsExtFzp("")
  {
  }
}
