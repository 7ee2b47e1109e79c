/** The sharded object key `github/{repository-id}/objects/{oid[0:2]}/{oid[2:4]}/{oid}`. */
module ObjectKey {
  import opened Wrappers
  import opened GoText

  datatype KeyError = InvalidOid

  predicate IsHexDigit(c: char) {
    '0' <= c <= '9' || 'a' <= c <= 'f' || 'A' <= c <= 'F'
  }

  /** hex.DecodeString returns no error. */
  predicate HexDecodes(s: string) {
    |s| % 2 == 0 && forall i :: 0 <= i < |s| ==> IsHexDigit(s[i])
  }

  /** The documented rule: exactly 64 lowercase hexadecimal characters. */
  predicate IsOid(oid: string) {
    |oid| == 64 && forall i :: 0 <= i < 64 ==> '0' <= oid[i] <= '9' || 'a' <= oid[i] <= 'f'
  }

  function RepositoryPrefix(repositoryID: int64): string {
    "github/" + FormatInt(repositoryID) + "/objects/"
  }

  function Key(repositoryID: int64, oid: string): Result<string, KeyError> {
    if |oid| != 64 || oid != ToLower(oid) then Failure(InvalidOid)
    else if !HexDecodes(oid) then Failure(InvalidOid)
    else Success(RepositoryPrefix(repositoryID) + oid[..2] + "/" + oid[2..4] + "/" + oid)
  }

  /** Key's two tests together are the documented OID rule. */
  lemma KeyAccepts(repositoryID: int64, oid: string)
    ensures Key(repositoryID, oid).Success? <==> IsOid(oid)
  {
    if IsOid(oid) {
      assert ToLower(oid) == oid;
    }
    if Key(repositoryID, oid).Success? {
      forall i | 0 <= i < 64 ensures '0' <= oid[i] <= '9' || 'a' <= oid[i] <= 'f' {
        assert IsHexDigit(oid[i]) && ToLower(oid)[i] == oid[i];
      }
    }
  }

  function IndexOf(s: string, c: char): (i: nat)
    ensures i <= |s| && c !in s[..i] && (i < |s| ==> s[i] == c)
  {
    if s == [] || s[0] == c then 0
    else
      var j := IndexOf(s[1..], c);
      assert s[..j + 1] == [s[0]] + s[1..][..j];
      j + 1
  }

  function ShardPath(oid: string): (s: string)
    requires IsOid(oid)
    ensures |s| == 15 && s[0] == '/'
  {
    "/objects/" + oid[..2] + "/" + oid[2..4] + "/"
  }

  /** Reads a key back: the repository ID up to the second slash, then the OID at the end. */
  function ParseKey(key: string): Option<(int64, string)> {
    if "github/" <= key then ParseScoped(key[7..]) else None
  }

  function ParseScoped(rest: string): Option<(int64, string)> {
    var slash := IndexOf(rest, '/');
    var number, tail := rest[..slash], rest[slash..];
    match ParseInt(number)
    case None => None
    case Some(id) =>
      if FormatInt(id) == number && |tail| == 79 && IsOid(tail[15..]) && tail[..15] == ShardPath(tail[15..])
      then Some((id, tail[15..])) else None
  }

  lemma {:induction false} FirstSlash(number: string, tail: string)
    requires '/' !in number && tail != [] && tail[0] == '/'
    ensures IndexOf(number + tail, '/') == |number|
  {
    if number != [] {
      assert (number + tail)[1..] == number[1..] + tail;
      FirstSlash(number[1..], tail);
    } else {
      assert number + tail == tail;
    }
  }

  lemma KeyShape(repositoryID: int64, oid: string)
    requires IsOid(oid)
    ensures Key(repositoryID, oid) == Success("github/" + (FormatInt(repositoryID) + (ShardPath(oid) + oid)))
  {
    KeyAccepts(repositoryID, oid);
    var number := FormatInt(repositoryID);
    assert RepositoryPrefix(repositoryID) + oid[..2] + "/" + oid[2..4] + "/" + oid
        == "github/" + (number + (ShardPath(oid) + oid));
  }

  /** The documented path, spelled out. */
  lemma KeyText(repositoryID: int64, oid: string)
    requires IsOid(oid)
    ensures Key(repositoryID, oid)
         == Success("github/" + FormatInt(repositoryID) + "/objects/" + oid[0..2] + "/" + oid[2..4] + "/" + oid)
  {
    KeyAccepts(repositoryID, oid);
    assert RepositoryPrefix(repositoryID) == "github/" + FormatInt(repositoryID) + "/objects/";
  }

  lemma ParseShape(repositoryID: int64, oid: string)
    requires IsOid(oid)
    ensures ParseScoped(FormatInt(repositoryID) + (ShardPath(oid) + oid)) == Some((repositoryID, oid))
  {
    var number, tail := FormatInt(repositoryID), ShardPath(oid) + oid;
    FirstSlash(number, tail);
    ParseFormat(repositoryID);
    assert (number + tail)[..|number|] == number && (number + tail)[|number|..] == tail;
    assert tail[15..] == oid && tail[..15] == ShardPath(oid);
  }

  /** The key is invertible: ParseKey answers (id, oid) for exactly the key that Key builds from
      them, over every int64 ID and every OID. */
  lemma KeyInvertible(key: string, repositoryID: int64, oid: string)
    ensures Key(repositoryID, oid) == Success(key) <==> ParseKey(key) == Some((repositoryID, oid))
  {
    KeyAccepts(repositoryID, oid);
    if IsOid(oid) {
      KeyShape(repositoryID, oid);
      ParseShape(repositoryID, oid);
      var rest := FormatInt(repositoryID) + (ShardPath(oid) + oid);
      assert ("github/" + rest)[7..] == rest;
      if ParseKey(key) == Some((repositoryID, oid)) {
        var slash := IndexOf(key[7..], '/');
        var number, tail := key[7..][..slash], key[7..][slash..];
        assert tail == ShardPath(oid) + oid;
        assert key[7..] == rest;
        assert key == "github/" + key[7..];
      }
    }
  }

  lemma NumberBeforeSlash(repositoryID: int64, tail: string, other: int64, tail2: string)
    requires FormatInt(repositoryID) + ("/" + tail) == FormatInt(other) + ("/" + tail2)
    ensures repositoryID == other
  {
    var a, b := FormatInt(repositoryID), FormatInt(other);
    FirstSlash(a, "/" + tail);
    FirstSlash(b, "/" + tail2);
    assert a == (a + ("/" + tail))[..|a|] && b == (b + ("/" + tail2))[..|b|];
    ParseFormat(repositoryID);
    ParseFormat(other);
  }

  lemma PrefixParts(repositoryID: int64, tail: string)
    ensures (RepositoryPrefix(repositoryID) + tail)[7..] == FormatInt(repositoryID) + ("/" + ("objects/" + tail))
  {}

  /** A key lies under a repository's prefix exactly when it was built for that repository. */
  lemma KeysStayInTheirRepository(key: string, owner: int64, other: int64, oid: string)
    requires Key(owner, oid) == Success(key)
    ensures RepositoryPrefix(other) <= key <==> owner == other
  {
    var mine := oid[..2] + "/" + oid[2..4] + "/" + oid;
    assert key == RepositoryPrefix(owner) + mine;
    if RepositoryPrefix(other) <= key {
      var theirs := key[|RepositoryPrefix(other)|..];
      assert key == RepositoryPrefix(other) + theirs;
      PrefixParts(owner, mine);
      PrefixParts(other, theirs);
      NumberBeforeSlash(owner, "objects/" + mine, other, "objects/" + theirs);
    }
  }
}
