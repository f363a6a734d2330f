/** The string helpers of img-store.js: image ids of the form
 *  `group/name[.type]` and the validators for groups, names and types. */
module ImgIds {
  import opened Wrappers

  const NameDelim: char := '/'
  const TypeDelim: char := '.'

  /** IMG_TYPES, the permitted image types. */
  const ImgTypes: seq<string> := ["ppm", "png"]

  /** The codes of the errors the validators build. */
  datatype ErrorCode = BadGroup | BadName | BadType

  /** An ImgError: an error code and a message naming the offending value. */
  datatype ImgError = ImgError(code: ErrorCode, message: string)

  /** The characters String.prototype.trim removes: ECMAScript WhiteSpace
   *  (tab, vertical tab, form feed, space, no-break space, byte-order mark
   *  and the other Zs space separators) and LineTerminator. */
  predicate IsWhiteSpace(c: char)
  {
    var n := c as int;
    || n == 0x09 || n == 0x0A || n == 0x0B || n == 0x0C || n == 0x0D
    || n == 0x20 || n == 0xA0 || n == 0x1680 || 0x2000 <= n <= 0x200A
    || n == 0x2028 || n == 0x2029 || n == 0x202F || n == 0x205F
    || n == 0x3000 || n == 0xFEFF
  }

  /** Every character of s is white space (vacuously so for ""). */
  predicate IsBlank(s: string)
  {
    forall i :: 0 <= i < |s| ==> IsWhiteSpace(s[i])
  }

  /** s without its leading white space. */
  function TrimStart(s: string): (r: string)
    ensures |r| <= |s| && r == s[|s| - |r|..]
    ensures r == [] <==> IsBlank(s)
    ensures r != [] ==> !IsWhiteSpace(r[0])
  {
    if s != [] && IsWhiteSpace(s[0]) then TrimStart(s[1..]) else s
  }

  /** s without its trailing white space. */
  function TrimEnd(s: string): (r: string)
    ensures |r| <= |s| && r == s[..|r|]
    ensures r == [] <==> IsBlank(s)
    ensures r != [] ==> !IsWhiteSpace(r[|r| - 1])
  {
    if s != [] && IsWhiteSpace(s[|s| - 1]) then TrimEnd(s[..|s| - 1]) else s
  }

  /** String.prototype.trim: s without leading and trailing white space;
   *  it is empty exactly when s is blank. */
  function Trim(s: string): (r: string)
    ensures |r| == 0 <==> IsBlank(s)
    ensures r != [] ==> !IsWhiteSpace(r[0]) && !IsWhiteSpace(r[|r| - 1])
  {
    var t := TrimStart(s);
    var r := TrimEnd(t);
    assert r != [] ==> r[0] == t[0];
    r
  }

  /** String.prototype.lastIndexOf for one character: the last index of c in
   *  s, or -1 when c does not occur. */
  function LastIndexOf(s: string, c: char): (r: int)
    ensures -1 <= r < |s|
    ensures r == -1 <==> c !in s
    ensures r >= 0 ==> s[r] == c && forall j :: r < j < |s| ==> s[j] != c
  {
    if s == [] then -1
    else if s[|s| - 1] == c then |s| - 1
    else LastIndexOf(s[..|s| - 1], c)
  }

  /** The id of an image from its group, name and optional type ("" when absent). */
  function ToImgId(group: string, name: string, imgType: string): string
  {
    var v := group + [NameDelim] + name;
    if imgType != "" then v + [TypeDelim] + imgType else v
  }

  /** Splits an id at its last '/' into group and name; None where the
   *  source's `assert(nameIndex > 0)` throws, i.e. when no '/' follows the
   *  first character. */
  function FromImgId(imgId: string): (r: Option<(string, string)>)
    ensures r.None? <==> forall j :: 0 < j < |imgId| ==> imgId[j] != NameDelim
    ensures r.Some? ==>
              && r.value.0 != []
              && r.value.0 + [NameDelim] + r.value.1 == imgId
              && NameDelim !in r.value.1
  {
    var nameIndex := LastIndexOf(imgId, NameDelim);
    if nameIndex <= 0 then None
    else
      var group, name := imgId[..nameIndex], imgId[nameIndex + 1..];
      assert group + [NameDelim] + name == imgId;
      assert forall x :: x in name ==> x != NameDelim by {
        forall x | x in name ensures x != NameDelim {
          var j :| 0 <= j < |name| && name[j] == x;
          assert imgId[nameIndex + 1 + j] == x;
        }
      }
      Some((group, name))
  }

  /** isBadGroup: an error exactly when the group is blank or holds a NUL. */
  function IsBadGroup(group: string): (r: Option<ImgError>)
    ensures r.Some? <==> IsBlank(group) || '\0' in group
    ensures r.Some? ==> r.value.code == BadGroup
  {
    if |Trim(group)| == 0 || '\0' in group then
      Some(ImgError(BadGroup, "bad image group " + group))
    else None
  }

  /** isBadName: an error exactly when the name is blank or holds a NUL or a '/'. */
  function IsBadName(name: string): (r: Option<ImgError>)
    ensures r.Some? <==> IsBlank(name) || '\0' in name || NameDelim in name
    ensures r.Some? ==> r.value.code == BadName
  {
    if |Trim(name)| == 0 || '\0' in name || NameDelim in name then
      Some(ImgError(BadName, "bad image name '" + name + "'"))
    else None
  }

  /** s ends with suffix. */
  predicate EndsWith(s: string, suffix: string)
  {
    |suffix| <= |s| && s[|s| - |suffix|..] == suffix
  }

  /** The last occurrence of c is at k when c does not occur after k. */
  lemma LastIndexOfAt(s: string, c: char, k: nat)
    requires k < |s| && s[k] == c
    requires forall j :: k < j < |s| ==> s[j] != c
    ensures LastIndexOf(s, c) == k
  {
  }

  /** A path that ends in '.' and a suffix without '.' has its last '.'
   *  right before that suffix. */
  lemma LastDotBeforeSuffix(path: string, t: string)
    requires EndsWith(path, [TypeDelim] + t) && TypeDelim !in t
    ensures LastIndexOf(path, TypeDelim) == |path| - |t| - 1
    ensures path[|path| - |t|..] == t
  {
  }

  /** The type isBadExt reads from a path: what follows its last '.', or ""
   *  when it has none. */
  function ExtOf(imgPath: string): (t: string)
    ensures TypeDelim !in t
    ensures TypeDelim in imgPath ==> EndsWith(imgPath, [TypeDelim] + t)
    ensures TypeDelim !in imgPath ==> t == ""
  {
    var lastDotIndex := LastIndexOf(imgPath, TypeDelim);
    if lastDotIndex < 0 then ""
    else
      var t := imgPath[lastDotIndex + 1..];
      assert imgPath[lastDotIndex..] == [TypeDelim] + t;
      assert forall j :: 0 <= j < |t| ==> t[j] == imgPath[lastDotIndex + 1 + j];
      t
  }

  /** The type read from a path is permitted exactly when the path ends in
   *  '.' and a permitted type. */
  lemma ExtOfPermitted(imgPath: string)
    ensures ExtOf(imgPath) in ImgTypes <==>
              exists i :: 0 <= i < |ImgTypes| && EndsWith(imgPath, [TypeDelim] + ImgTypes[i])
  {
    var t := ExtOf(imgPath);
    if t in ImgTypes {
      var i :| 0 <= i < |ImgTypes| && ImgTypes[i] == t;
      assert TypeDelim in imgPath;
      assert EndsWith(imgPath, [TypeDelim] + ImgTypes[i]);
    }
    if i :| 0 <= i < |ImgTypes| && EndsWith(imgPath, [TypeDelim] + ImgTypes[i]) {
      LastDotBeforeSuffix(imgPath, ImgTypes[i]);
      assert imgPath[|imgPath| - |ImgTypes[i]| - 1] == TypeDelim;
      assert t == ImgTypes[i];
    }
  }

  /** isBadExt: the path is accepted exactly when it ends in '.' and a
   *  permitted type. */
  function IsBadExt(imgPath: string): (r: Option<ImgError>)
    ensures r.None? <==> exists i :: 0 <= i < |ImgTypes| && EndsWith(imgPath, [TypeDelim] + ImgTypes[i])
    ensures r.Some? ==> r.value.code == BadType
  {
    var imgType := ExtOf(imgPath);
    ExtOfPermitted(imgPath);
    if imgType !in ImgTypes then
      Some(ImgError(BadType, "bad image type '" + imgType + "' in path " + imgPath))
    else None
  }

  /** isBadType: an error exactly when the type is neither "ppm" nor "png". */
  function IsBadType(imgType: string): (r: Option<ImgError>)
    ensures r.None? <==> imgType == "ppm" || imgType == "png"
    ensures r.Some? ==> r.value.code == BadType
  {
    if imgType !in ImgTypes then Some(ImgError(BadType, "bad image type '" + imgType + "'"))
    else None
  }

  /** fromImgId undoes toImgId: the split at the last '/' gives back the group,
   *  even one that holds '/', and the name with its type suffix. */
  lemma FromToImgId(group: string, name: string, imgType: string)
    requires group != []
    requires NameDelim !in name && NameDelim !in imgType
    ensures FromImgId(ToImgId(group, name, imgType))
            == Some((group, if imgType == "" then name else name + [TypeDelim] + imgType))
  {
    var id := ToImgId(group, name, imgType);
    var rest := if imgType == "" then name else name + [TypeDelim] + imgType;
    assert id == group + [NameDelim] + rest;
    forall j | |group| < j < |id| ensures id[j] != NameDelim {
      assert id[j] == rest[j - |group| - 1];
    }
    LastIndexOfAt(id, NameDelim, |group|);
    assert id[..|group|] == group && id[|group| + 1..] == rest;
  }

  /** A group and a name that pass their validators survive the round trip
   *  through an image id. */
  lemma ValidIdRoundTrip(group: string, name: string)
    requires IsBadGroup(group).None? && IsBadName(name).None?
    ensures FromImgId(ToImgId(group, name, "")) == Some((group, name))
  {
    FromToImgId(group, name, "");
  }
}
