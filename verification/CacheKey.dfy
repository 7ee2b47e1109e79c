/** The text under the cache key's HMAC: token, NUL, folded owner, slash, folded repository. */
module CacheKey {
  import opened GoText
  import opened Forge

  const NUL: char := '\0'

  function Preimage(r: Request): string {
    r.token + [NUL] + ToLower(r.owner) + ['/'] + ToLower(r.repository)
  }

  /** The cache key: the HMAC of that text. */
  function Key(mac: string -> string, r: Request): string {
    mac(Preimage(r))
  }

  /** The same request up to the letter case of the repository path. */
  ghost predicate SameRequest(a: Request, b: Request) {
    && a.token == b.token
    && ToLower(a.owner) == ToLower(b.owner)
    && ToLower(a.repository) == ToLower(b.repository)
  }

  function Path(r: Request): string {
    ToLower(r.owner) + (['/'] + ToLower(r.repository))
  }

  lemma PreimageParts(r: Request)
    ensures Preimage(r) == r.token + ([NUL] + Path(r))
  {}

  /** Case folding moves neither separators nor their positions. */
  lemma FoldingKeepsSeparators(s: string)
    ensures NUL in ToLower(s) <==> NUL in s
    ensures '/' in ToLower(s) <==> '/' in s
  {
    forall c | c == NUL || c == '/' ensures c in ToLower(s) <==> c in s {
      if c in s {
        var i :| 0 <= i < |s| && s[i] == c;
        assert ToLower(s)[i] == c;
      }
      if c in ToLower(s) {
        var i :| 0 <= i < |s| && ToLower(s)[i] == c;
        assert s[i] == c;
      }
    }
  }

  /** Two ways of cutting one text at a separator agree when neither head contains it. */
  lemma SameCut(a: string, x: string, b: string, y: string, sep: char)
    requires sep !in a && sep !in b
    requires a + ([sep] + x) == b + ([sep] + y)
    ensures a == b && x == y
  {
    var s := a + ([sep] + x);
    assert s[|a|] == sep && s[|b|] == sep;
    assert forall i :: 0 <= i < |a| ==> s[i] == a[i];
    assert forall i :: 0 <= i < |b| ==> s[i] == b[i];
    assert |a| == |b|;
    assert a == s[..|a|] == b;
    assert x == s[|a| + 1..] == y;
  }

  /** For tokens without NUL and owners without a slash the preimage is unambiguous. */
  lemma PreimageUnambiguous(a: Request, b: Request)
    requires NUL !in a.token && NUL !in b.token && '/' !in a.owner && '/' !in b.owner
    ensures Preimage(a) == Preimage(b) <==> SameRequest(a, b)
  {
    if Preimage(a) == Preimage(b) {
      PreimageParts(a);
      PreimageParts(b);
      SameCut(a.token, Path(a), b.token, Path(b), NUL);
      FoldingKeepsSeparators(a.owner);
      FoldingKeepsSeparators(b.owner);
      SameCut(ToLower(a.owner), ToLower(a.repository), ToLower(b.owner), ToLower(b.repository), '/');
    }
  }

  // ----- exactly which requests share a key with a different one

  ghost predicate Collides(r: Request) {
    exists other :: Preimage(other) == Preimage(r) && !SameRequest(other, r)
  }

  /** Checkable on the request alone: a slash in the owner or the repository, a NUL in the owner, or
      a NUL in the token followed by text without capitals. */
  ghost predicate Ambiguous(r: Request) {
    || '/' in r.owner
    || '/' in r.repository
    || NUL in r.owner
    || exists i :: 0 <= i < |r.token| && r.token[i] == NUL && ToLower(r.token[i + 1..]) == r.token[i + 1..]
  }

  /** Outside those shapes no other request has the same preimage; inside them one always does. */
  lemma CollidesExactlyWhenAmbiguous(r: Request)
    ensures Collides(r) <==> Ambiguous(r)
  {
    if Ambiguous(r) {
      AmbiguousCollides(r);
    }
    if Collides(r) {
      var other :| Preimage(other) == Preimage(r) && !SameRequest(other, r);
      CollisionIsAmbiguous(r, other);
    }
  }

  /** The HMAC does not take two different texts of these requests for one. */
  ghost predicate NoClash(mac: string -> string, a: Request, b: Request) {
    mac(Preimage(a)) == mac(Preimage(b)) ==> Preimage(a) == Preimage(b)
  }

  /** Then the key of a request whose text is its own alone stands for that request and no other. */
  lemma KeyIdentifies(mac: string -> string, a: Request, b: Request)
    requires NoClash(mac, a, b) && !Ambiguous(a)
    ensures Key(mac, a) == Key(mac, b) <==> SameRequest(a, b)
  {
    CollidesExactlyWhenAmbiguous(a);
    assert Preimage(b) == Preimage(a) && !Collides(a) ==> SameRequest(b, a);
  }

  lemma CutAt(s: string, i: nat)
    requires i < |s|
    ensures ToLower(s) == ToLower(s[..i]) + [LowerChar(s[i])] + ToLower(s[i + 1..])
  {
    assert s == s[..i] + [s[i]] + s[i + 1..];
    assert ToLower([s[i]]) == [LowerChar(s[i])];
    LowerConcat(s[..i] + [s[i]], s[i + 1..]);
    LowerConcat(s[..i], [s[i]]);
  }

  lemma Witness(r: Request, other: Request)
    requires Preimage(other) == Preimage(r)
    requires |other.token| != |r.token| || |other.owner| != |r.owner|
    ensures Collides(r)
  {
    assert |ToLower(other.owner)| == |other.owner| && |ToLower(r.owner)| == |r.owner|;
    assert !SameRequest(other, r);
  }

  lemma FoldAround(a: string, sep: char, b: string)
    requires LowerChar(sep) == sep
    ensures ToLower(a + [sep] + b) == ToLower(a) + [sep] + ToLower(b)
  {
    assert ToLower([sep]) == [sep];
    LowerConcat(a + [sep], b);
    LowerConcat(a, [sep]);
  }

  lemma OwnerSlashCollides(r: Request, i: nat)
    requires i < |r.owner| && r.owner[i] == '/'
    ensures Collides(r)
  {
    var tail := r.owner[i + 1..];
    CutAt(r.owner, i);
    FoldAround(tail, '/', r.repository);
    var other := Request(r.token, r.owner[..i], tail + ['/'] + r.repository);
    assert Preimage(other) == Preimage(r);
    Witness(r, other);
  }

  lemma RepositorySlashCollides(r: Request, i: nat)
    requires i < |r.repository| && r.repository[i] == '/'
    ensures Collides(r)
  {
    var head := r.repository[..i];
    CutAt(r.repository, i);
    FoldAround(r.owner, '/', head);
    var other := Request(r.token, r.owner + ['/'] + head, r.repository[i + 1..]);
    assert Preimage(other) == Preimage(r);
    Witness(r, other);
  }

  lemma OwnerNulCollides(r: Request, i: nat)
    requires i < |r.owner| && r.owner[i] == NUL
    ensures Collides(r)
  {
    CutAt(r.owner, i);
    var other := Request(r.token + [NUL] + ToLower(r.owner[..i]), r.owner[i + 1..], r.repository);
    assert Preimage(other) == Preimage(r);
    Witness(r, other);
  }

  lemma TokenNulCollides(r: Request, i: nat)
    requires i < |r.token| && r.token[i] == NUL && ToLower(r.token[i + 1..]) == r.token[i + 1..]
    ensures Collides(r)
  {
    var tail := r.token[i + 1..];
    assert r.token == r.token[..i] + [NUL] + tail;
    FoldAround(tail, NUL, r.owner);
    var other := Request(r.token[..i], tail + [NUL] + r.owner, r.repository);
    assert Preimage(other) == Preimage(r);
    Witness(r, other);
  }

  lemma AmbiguousCollides(r: Request)
    requires Ambiguous(r)
    ensures Collides(r)
  {
    if '/' in r.owner {
      var i :| 0 <= i < |r.owner| && r.owner[i] == '/';
      OwnerSlashCollides(r, i);
    } else if '/' in r.repository {
      var i :| 0 <= i < |r.repository| && r.repository[i] == '/';
      RepositorySlashCollides(r, i);
    } else if NUL in r.owner {
      var i :| 0 <= i < |r.owner| && r.owner[i] == NUL;
      OwnerNulCollides(r, i);
    } else {
      var i :| 0 <= i < |r.token| && r.token[i] == NUL && ToLower(r.token[i + 1..]) == r.token[i + 1..];
      TokenNulCollides(r, i);
    }
  }

  lemma CollisionIsAmbiguous(r: Request, other: Request)
    requires Preimage(other) == Preimage(r) && !SameRequest(other, r)
    ensures Ambiguous(r)
  {
    var n, m := |r.token|, |other.token|;
    PreimageParts(r);
    PreimageParts(other);
    if m < n {
      ShorterToken(r, other);
    } else if m > n {
      LongerToken(r, other);
    } else {
      assert r.token == Preimage(r)[..n] == other.token;
      assert Path(r) == Preimage(r)[n + 1..] == Path(other);
      OwnerCut(r, other);
    }
  }

  /** The other token ends at a NUL of this one, so what follows is part of a folded path. */
  lemma ShorterToken(r: Request, other: Request)
    requires r.token + ([NUL] + Path(r)) == other.token + ([NUL] + Path(other)) && |other.token| < |r.token|
    ensures Ambiguous(r)
  {
    var m := |other.token|;
    var p := other.token + ([NUL] + Path(other));
    var tail := r.token[m + 1..];
    assert r.token[m] == p[m] == NUL;
    forall k | 0 <= k < |tail| ensures LowerChar(tail[k]) == tail[k] {
      assert tail[k] == p[m + 1 + k] == Path(other)[k];
    }
    assert ToLower(tail) == tail;
  }

  /** The other token ends at a NUL of this path: in the owner, or in the repository with the other
      owner's slash behind it. */
  lemma LongerToken(r: Request, other: Request)
    requires r.token + ([NUL] + Path(r)) == other.token + ([NUL] + Path(other)) && |other.token| > |r.token|
    ensures Ambiguous(r)
  {
    var n, m := |r.token|, |other.token|;
    var p := r.token + ([NUL] + Path(r));
    var owner, repository := ToLower(r.owner), ToLower(r.repository);
    FoldingKeepsSeparators(r.owner);
    FoldingKeepsSeparators(r.repository);
    assert p[m] == NUL && Path(r)[m - n - 1] == NUL;
    if m - n - 1 < |owner| {
      assert owner[m - n - 1] == NUL;
    } else {
      var slash := m + 1 + |other.owner|;
      assert p[slash] == Path(other)[|other.owner|] == '/';
      assert repository[slash - n - 2 - |owner|] == Path(r)[slash - n - 1] == '/';
    }
  }

  lemma OwnerCut(r: Request, other: Request)
    requires Path(r) == Path(other)
    ensures '/' in r.owner || '/' in r.repository
         || (ToLower(r.owner) == ToLower(other.owner) && ToLower(r.repository) == ToLower(other.repository))
  {
    var owner, repository := ToLower(r.owner), ToLower(r.repository);
    var i := |other.owner|;
    FoldingKeepsSeparators(r.owner);
    FoldingKeepsSeparators(r.repository);
    assert Path(other)[i] == '/';
    if i < |owner| {
      assert owner[i] == '/';
    } else if i > |owner| {
      assert repository[i - |owner| - 1] == '/';
    } else {
      assert owner == Path(r)[..i] == ToLower(other.owner);
      assert repository == Path(r)[i + 1..] == ToLower(other.repository);
    }
  }
}
