/** When a printed key belongs to one key among all keys, canonical or not. */
module UniqueKeys {
  import opened Common
  import opened Keys

  /** What a caller must check for a text that no other key prints. A Ribbit key with a product
      never qualifies: the same text is that of a key without one. */
  predicate Unique(k: Key) {
    match k
    case Ribbit(endpoint, region, product) => product.None? && NoColon(region) && NoColon(endpoint)
    case Config(configType, hash) => NoColon(configType) && NoColon(hash)
    case ArchiveIndex(name, hash) => NoColon(name) && NoColon(hash)
    case Manifest(manifestType, _, _) => forall i: nat :: i < |Body(k)| && EmbeddedKeyAt(Body(k), i) ==> i == |manifestType|
    case _ => true
  }

  lemma OnlyColon(a: string, b: string, p: nat)
    requires NoColon(a) && NoColon(b) && p < |a + ":" + b| && (a + ":" + b)[p] == ':'
    ensures p == |a|
  {
  }

  /** A text with one colon is cut at it. */
  lemma CutAtOnlyColon(a: string, b: string, x: string, y: string)
    requires NoColon(a) && NoColon(b) && a + ":" + b == x + ":" + y
    ensures x == a && y == b
  {
    var text := x + ":" + y;
    assert text[|x|] == ':';
    OnlyColon(a, b, |x|);
    assert text[..|x|] == x == a && text[|x| + 1..] == y == b;
  }

  lemma EmbeddedAtOwnKey(k: Key)
    requires k.Manifest?
    ensures EmbeddedKeyAt(Body(k), |k.manifestType|)
    ensures |k.manifestType| < |Body(k)|
  {
    var n, body := |k.manifestType|, Body(k);
    assert body[n + 1..n + 33] == Hex(k.contentKey);
  }

  lemma SameManifest(k: Key, j: Key)
    requires k.Manifest? && j.Manifest? && Body(k) == Body(j) && |k.manifestType| == |j.manifestType|
    ensures j == k
  {
    var n, body := |k.manifestType|, Body(k);
    assert body[..n] == k.manifestType == j.manifestType;
    assert body[n + 1..n + 33] == Hex(k.contentKey) == Hex(j.contentKey);
    HexInjective(k.contentKey, j.contentKey);
    assert body[n + 33..] == VersionSuffix(k.version) == VersionSuffix(j.version);
    assert k.version.Some? ==> VersionSuffix(k.version)[1..] == k.version.value;
    assert j.version.Some? ==> VersionSuffix(j.version)[1..] == j.version.value;
  }

  lemma UniqueIsCanonical(k: Key)
    requires Unique(k)
    ensures Canonical(k)
  {
    if k.Manifest? {
      var s := k.manifestType;
      forall i: nat | i < |s| ensures EmbeddedKeyAt(s, i) ==> EmbeddedKeyAt(Body(k), i) {
        assert i + 33 <= |s| ==> Body(k)[i + 1..i + 33] == s[i + 1..i + 33];
      }
    }
  }

  /** A Ribbit text with a product has two colons. */
  lemma ProductNeedsTwoColons(k: Key, j: Key)
    requires k.Ribbit? && Unique(k) && j.Ribbit? && Body(j) == Body(k)
    ensures j == k
  {
    if j.product.Some? {
      var rest := j.product.value + ":" + j.endpoint;
      assert rest[|j.product.value|] == ':';
      CutAtOnlyColon(k.region, k.endpoint, j.region, rest);
    } else {
      CutAtOnlyColon(k.region, k.endpoint, j.region, j.endpoint);
    }
  }

  lemma UniqueStandsAlone(k: Key, j: Key)
    requires Unique(k) && Print(j) == Print(k)
    ensures j == k
  {
    SameTag(j, k);
    if Canonical(j) {
      UniqueIsCanonical(k);
      CanonicalPrintsAreDistinct(j, k);
    } else {
      match j
      case Ribbit(_, _, _) => ProductNeedsTwoColons(k, j);
      case Config(s, h) => CutAtOnlyColon(k.configType, k.hash, s, h);
      case ArchiveIndex(s, h) => CutAtOnlyColon(k.archiveName, k.indexHash, s, h);
      case Manifest(_, _, _) =>
        EmbeddedAtOwnKey(j);
        SameManifest(k, j);
    }
  }

  lemma ManifestLookalike(k: Key, i: nat) returns (j: Key)
    requires k.Manifest? && i < |Body(k)| && EmbeddedKeyAt(Body(k), i) && i != |k.manifestType|
    ensures j != k && Print(j) == Print(k)
  {
    var body := Body(k);
    var rest := body[i + 33..];
    j := Manifest(body[..i], UnHex(body[i + 1..i + 33]), if rest == "" then None else Some(rest[1..]));
    assert rest != "" ==> rest == ":" + rest[1..];
    assert VersionSuffix(j.version) == rest;
    assert body == body[..i] + ":" + body[i + 1..i + 33] + rest;
  }

  /** A hash with a colon: part of it may as well belong to the field before. */
  lemma ShiftColon(a: string, b: string) returns (x: string, y: string)
    requires !NoColon(b)
    ensures x != a && a + ":" + b == x + ":" + y
  {
    var (c, d) := SplitColon(b);
    x, y := a + ":" + c, d;
    assert a + ":" + (c + ":" + d) == x + ":" + y;
    assert |x| > |a|;
  }

  lemma Lookalike(k: Key) returns (j: Key)
    requires !Unique(k)
    ensures j != k && Print(j) == Print(k)
  {
    if !Canonical(k) {
      j := CanonicalTwin(k);
    } else {
      match k
      case Ribbit(endpoint, region, product) =>
        j := Ribbit(product.value + ":" + endpoint, region, None);
      case Config(s, h) =>
        var x, y := ShiftColon(s, h);
        j := Config(x, y);
      case ArchiveIndex(s, h) =>
        var x, y := ShiftColon(s, h);
        j := ArchiveIndex(x, y);
      case Manifest(s, _, _) =>
        var i: nat :| i < |Body(k)| && EmbeddedKeyAt(Body(k), i) && i != |s|;
        j := ManifestLookalike(k, i);
    }
  }

  /** A key's text is printed by no other key of any type exactly when the key is unique. */
  lemma UniqueIsExact(k: Key)
    ensures Unique(k) <==> forall j :: Print(j) == Print(k) ==> j == k
  {
    if Unique(k) {
      forall j | Print(j) == Print(k) ensures j == k {
        UniqueStandsAlone(k, j);
      }
    } else {
      var j := Lookalike(k);
    }
  }
}
