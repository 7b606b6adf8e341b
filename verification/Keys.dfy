/** The ten cache key types, their printed forms, and when a printed form names one key. */
module Keys {
  import opened Common
  import Decimal

  /** The 16 bytes of a content key or encoding key. */
  type Md5 = k: seq<byte> | |k| == 16 witness seq(16, _ => 0)

  /** Field equality of the source is equality of these values. */
  datatype Key =
    | Ribbit(endpoint: string, region: string, product: Option<string>)
    | Config(configType: string, hash: string)
    | Blte(encodingKey: Md5, block: Option<nat>)
    | Content(contentKey: Md5)
    | ArchiveIndex(archiveName: string, indexHash: string)
    | Manifest(manifestType: string, contentKey: Md5, version: Option<string>)
    | RootFile(contentKey: Md5, isParsed: bool, rootVersion: Option<nat>)
    | EncodingFile(encodingKey: Md5, page: Option<nat>, isParsed: bool)
    | ArchiveRange(archiveId: string, startOffset: nat, length: nat)
    | BlteBlock(contentKey: Md5, blockIndex: nat, isDecompressed: bool)

  // ----- Hexadecimal keys -----

  predicate IsHexChar(c: char) {
    '0' <= c <= '9' || 'a' <= c <= 'f'
  }

  function HexChar(n: nat): (c: char)
    requires n < 16
    ensures IsHexChar(c) && HexValue(c) == n
  {
    "0123456789abcdef"[n]
  }

  function HexValue(c: char): (n: nat)
    requires IsHexChar(c)
    ensures n < 16 && "0123456789abcdef"[n] == c
  {
    if c <= '9' then c as int - '0' as int else c as int - 'a' as int + 10
  }

  predicate IsHex(s: string) {
    forall i :: 0 <= i < |s| ==> IsHexChar(s[i])
  }

  /** Two characters for each byte. */
  function Hex(k: seq<byte>): (s: string)
    ensures |s| == 2 * |k| && IsHex(s)
  {
    if k == [] then "" else [HexChar(k[0] / 16), HexChar(k[0] % 16)] + Hex(k[1..])
  }

  function UnHex(s: string): (k: seq<byte>)
    requires |s| % 2 == 0 && IsHex(s)
    ensures |k| == |s| / 2 && Hex(k) == s
  {
    if s == [] then []
    else
      var b: byte := 16 * HexValue(s[0]) + HexValue(s[1]);
      var rest := UnHex(s[2..]);
      assert ([b] + rest)[1..] == rest;
      assert b / 16 == HexValue(s[0]) && b % 16 == HexValue(s[1]);
      assert s == [s[0], s[1]] + s[2..];
      [b] + rest
  }

  lemma {:induction false} HexInjective(j: seq<byte>, k: seq<byte>)
    requires Hex(j) == Hex(k)
    ensures j == k
  {
    assert |j| == |k|;
    if j != [] {
      HexHead(j);
      HexHead(k);
      HexInjective(j[1..], k[1..]);
      assert j == [j[0]] + j[1..] && k == [k[0]] + k[1..];
    }
  }

  /** The first two characters determine the first byte. */
  lemma HexHead(k: seq<byte>)
    requires k != []
    ensures k[0] == 16 * HexValue(Hex(k)[0]) + HexValue(Hex(k)[1]) && Hex(k)[2..] == Hex(k[1..])
  {
    assert Hex(k)[0] == HexChar(k[0] / 16) && Hex(k)[1] == HexChar(k[0] % 16);
  }

  // ----- Printing -----

  function Tag(k: Key): string {
    match k
    case Ribbit(_, _, _) => "ribbit"
    case Config(_, _) => "config"
    case Blte(_, _) => "blte"
    case Content(_) => "content"
    case ArchiveIndex(_, _) => "index"
    case Manifest(_, _, _) => "manifest"
    case RootFile(_, _, _) => "root"
    case EncodingFile(_, _, _) => "encoding"
    case ArchiveRange(_, _, _) => "archive"
    case BlteBlock(_, _, _) => "blte"
  }

  function Body(k: Key): string {
    match k
    case Ribbit(endpoint, region, product) =>
      region + ":" + (if product.Some? then product.value + ":" + endpoint else endpoint)
    case Config(configType, hash) => configType + ":" + hash
    case Blte(key, block) => Hex(key) + (if block.Some? then ":" + Decimal.Print(block.value) else "")
    case Content(key) => Hex(key)
    case ArchiveIndex(name, hash) => name + ":" + hash
    case Manifest(manifestType, key, version) => manifestType + ":" + Hex(key) + VersionSuffix(version)
    case RootFile(key, isParsed, version) =>
      Word(isParsed, "parsed") + ":" + Hex(key)
      + (if version.Some? then ":v" + Decimal.Print(version.value) else "")
    case EncodingFile(key, page, isParsed) =>
      Word(isParsed, "parsed") + ":" + Hex(key)
      + (if page.Some? then ":p" + Decimal.Print(page.value) else "")
    case ArchiveRange(id, start, length) => id + ":" + Decimal.Print(start) + "+" + Decimal.Print(length)
    case BlteBlock(key, index, isDecompressed) =>
      Word(isDecompressed, "decompressed") + ":" + Hex(key) + ":b" + Decimal.Print(index)
  }

  function VersionSuffix(version: Option<string>): string {
    if version.Some? then ":" + version.value else ""
  }

  /** `as_cache_key`: the string by which disk and browser caches know a key. */
  function Print(k: Key): string {
    Tag(k) + ":" + Body(k)
  }

  lemma RibbitText(region: string, endpoint: string, product: Option<string>)
    ensures Print(Ribbit(endpoint, region, product))
            == (if product.Some? then "ribbit:" + region + ":" + product.value else "ribbit:" + region) + ":" + endpoint
  {
    assert "ribbit" + ":" == "ribbit:";
    var head := "ribbit:" + region;
    if product.Some? {
      assert "ribbit:" + (region + ":" + (product.value + ":" + endpoint))
          == head + ":" + product.value + ":" + endpoint;
    } else {
      assert "ribbit:" + (region + ":" + endpoint) == head + ":" + endpoint;
    }
  }

  lemma BlteText(key: Md5, block: Option<nat>)
    ensures Print(Blte(key, block))
            == if block.Some? then "blte:" + Hex(key) + (":" + Decimal.Print(block.value)) else "blte:" + Hex(key)
  {
    var hex := Hex(key);
    assert "blte" + ":" == "blte:";
    if block.Some? {
      var suffix := ":" + Decimal.Print(block.value);
      assert "blte:" + (hex + suffix) == "blte:" + hex + suffix;
    } else {
      assert hex + "" == hex;
    }
  }

  /** The reused buffer behind three of the printers; what it held before does not matter. */
  class CacheKeyBuffer {
    var buffer: string

    constructor ()
      ensures buffer == ""
    {
      buffer := "";
    }

    method FormatRibbit(region: string, endpoint: string, product: Option<string>) returns (r: string)
      modifies this
      ensures r == buffer == Print(Ribbit(endpoint, region, product))
    {
      buffer := "";
      buffer := buffer + "ribbit:";
      assert buffer == "ribbit:";
      buffer := buffer + region;
      if product.Some? {
        buffer := buffer + ":";
        buffer := buffer + product.value;
      }
      buffer := buffer + ":";
      buffer := buffer + endpoint;
      r := buffer;
      RibbitText(region, endpoint, product);
    }

    method FormatConfig(configType: string, hash: string) returns (r: string)
      modifies this
      ensures r == buffer == Print(Config(configType, hash))
    {
      buffer := "";
      buffer := buffer + "config:";
      assert buffer == "config" + ":";
      buffer := buffer + configType;
      buffer := buffer + ":";
      buffer := buffer + hash;
      assert buffer == "config" + ":" + (configType + ":" + hash);
      r := buffer;
    }

    method FormatBlte(encodingKey: Md5, block: Option<nat>) returns (r: string)
      modifies this
      ensures r == buffer == Print(Blte(encodingKey, block))
    {
      BlteText(encodingKey, block);
      ghost var text := Print(Blte(encodingKey, block));
      var hex := Hex(encodingKey);
      buffer := "";
      buffer := buffer + "blte:";
      assert buffer == "blte:";
      buffer := buffer + hex;
      if block.Some? {
        var index := Decimal.Print(block.value);
        buffer := buffer + (":" + index);
      }
      assert buffer == text;
      r := buffer;
    }
  }

  // ----- Canonical keys -----

  predicate NoColon(s: string) {
    ':' !in s
  }

  /** Position `i` of a manifest type holds a colon and a printed content key, so that the
      text before it could have been the manifest type. */
  predicate EmbeddedKeyAt(s: string, i: nat) {
    && i + 33 <= |s|
    && s[i] == ':'
    && IsHex(s[i + 1..i + 33])
    && (i + 33 == |s| || s[i + 33] == ':')
  }

  /** The text fields a caller must check. */
  predicate Canonical(k: Key) {
    match k
    case Ribbit(endpoint, region, product) =>
      NoColon(region) && (if product.Some? then NoColon(product.value) else NoColon(endpoint))
    case Config(configType, _) => NoColon(configType)
    case ArchiveIndex(name, _) => NoColon(name)
    case Manifest(manifestType, _, _) => forall i: nat :: i < |manifestType| ==> !EmbeddedKeyAt(manifestType, i)
    case _ => true
  }

  /** Text fields without colons are enough; archive ids and versions are not restricted. */
  lemma ColonFreeIsCanonical(k: Key)
    requires k.Ribbit? ==> NoColon(k.endpoint) && NoColon(k.region) && (k.product.Some? ==> NoColon(k.product.value))
    requires k.Config? ==> NoColon(k.configType)
    requires k.ArchiveIndex? ==> NoColon(k.archiveName)
    requires k.Manifest? ==> NoColon(k.manifestType)
    ensures Canonical(k)
  {
  }

  // ----- Splitting printed strings -----

  /** A text without the separator ends at the first separator. */
  lemma SplitFirst(sep: char, a: string, x: string, b: string, y: string)
    requires sep !in a && sep !in b
    requires a + [sep] + x == b + [sep] + y
    ensures a == b && x == y
  {
    var s := a + [sep] + x;
    assert s[|a|] == sep && s[|b|] == sep;
    assert s[..|a|] == a && s[..|b|] == b;
    assert forall i :: 0 <= i < |a| ==> s[i] == a[i] != sep;
    assert forall i :: 0 <= i < |b| ==> s[i] == b[i] != sep;
    assert |a| == |b|;
    assert s[|a| + 1..] == x && s[|b| + 1..] == y;
  }

  /** A text without the separator starts at the last separator. */
  lemma SplitLast(sep: char, a: string, x: string, b: string, y: string)
    requires sep !in x && sep !in y
    requires a + [sep] + x == b + [sep] + y
    ensures a == b && x == y
  {
    var s := a + [sep] + x;
    assert s[|a|] == sep && s[|b|] == sep;
    assert forall i :: |a| < i < |s| ==> s[i] == x[i - |a| - 1] != sep;
    assert forall i :: |b| < i < |s| ==> s[i] == y[i - |b| - 1] != sep;
    assert |a| == |b|;
    assert s[..|a|] == a && s[..|b|] == b;
    assert s[|a| + 1..] == x && s[|b| + 1..] == y;
  }

  /** A printed 16-byte key has a fixed width. */
  lemma SplitHex(j: Md5, x: string, k: Md5, y: string)
    requires Hex(j) + x == Hex(k) + y
    ensures j == k && x == y
  {
    var s := Hex(j) + x;
    assert s[..32] == Hex(j) && s[..32] == Hex(k);
    assert s[32..] == x && s[32..] == y;
    HexInjective(j, k);
  }

  lemma NumeralLacks(n: nat, c: char)
    requires !Decimal.IsDigit(c)
    ensures c !in Decimal.Print(n)
  {
  }

  lemma SameTag(a: Key, b: Key)
    requires Print(a) == Print(b)
    ensures Tag(a) == Tag(b) && Body(a) == Body(b)
  {
    SplitFirst(':', Tag(a), Body(a), Tag(b), Body(b));
  }

  /** The two types that share the tag `blte` still print differently: one starts with a
      hexadecimal key, the other with a word that is not hexadecimal. */
  lemma BlteIsNotBlteBlock(a: Key, b: Key)
    requires a.Blte? && b.BlteBlock?
    ensures Body(a) != Body(b)
  {
    assert forall i :: 0 <= i < 32 ==> Body(a)[i] == Hex(a.encodingKey)[i];
    if b.isDecompressed {
      assert Body(b)[3] == 'o';
    } else {
      assert Body(b)[0] == 'r';
    }
  }

  /** The numbered suffix of a printed key: absent, or a marker and a numeral. */
  lemma SplitNumber(marker: string, m: Option<nat>, n: Option<nat>)
    requires marker != ""
    requires (if m.Some? then marker + Decimal.Print(m.value) else "")
             == (if n.Some? then marker + Decimal.Print(n.value) else "")
    ensures m == n
  {
    if m.Some? && n.Some? {
      var s := marker + Decimal.Print(m.value);
      assert s[|marker|..] == Decimal.Print(m.value) && s[|marker|..] == Decimal.Print(n.value);
      Decimal.PrintInjective(m.value, n.value);
    }
  }

  function Word(flag: bool, yes: string): string {
    if flag then yes else "raw"
  }

  lemma SplitWord(p: bool, q: bool, yes: string, h: string, x: string, g: string, y: string)
    requires yes != "raw" && NoColon(yes)
    requires Word(p, yes) + ":" + h + x == Word(q, yes) + ":" + g + y
    ensures p == q && h + x == g + y
  {
    var v, w := Word(p, yes), Word(q, yes);
    assert v + ":" + h + x == v + [':'] + (h + x);
    assert w + ":" + g + y == w + [':'] + (g + y);
    SplitFirst(':', v, h + x, w, g + y);
  }

  /** Word, key and numbered suffix, as three key types print them. */
  lemma SplitWordHex(p: bool, q: bool, yes: string, j: Md5, x: string, k: Md5, y: string)
    requires yes != "raw" && NoColon(yes)
    requires Word(p, yes) + ":" + Hex(j) + x == Word(q, yes) + ":" + Hex(k) + y
    ensures p == q && j == k && x == y
  {
    SplitWord(p, q, yes, Hex(j), x, Hex(k), y);
    SplitHex(j, x, k, y);
  }

  // ----- Every printed string has exactly one canonical key -----

  lemma RibbitUnambiguous(a: Key, b: Key)
    requires a.Ribbit? && b.Ribbit? && Canonical(a) && Canonical(b)
    requires Body(a) == Body(b)
    ensures a == b
  {
    var x := if a.product.Some? then a.product.value + ":" + a.endpoint else a.endpoint;
    var y := if b.product.Some? then b.product.value + ":" + b.endpoint else b.endpoint;
    assert a.product.Some? ==> x[|a.product.value|] == ':';
    assert b.product.Some? ==> y[|b.product.value|] == ':';
    SplitFirst(':', a.region, x, b.region, y);
    if a.product.Some? && b.product.Some? {
      SplitFirst(':', a.product.value, a.endpoint, b.product.value, b.endpoint);
    }
  }

  /** If one text could be split after two manifest types, the longer one embeds a key. */
  lemma ManifestTypeOrder(s: string, h: string, x: string, t: string, g: string, y: string)
    requires s + ":" + h + x == t + ":" + g + y
    requires |h| == 32 && IsHex(h) && (x == "" || x[0] == ':')
    requires |s| < |t|
    ensures EmbeddedKeyAt(t, |s|)
  {
    var w := s + ":" + h + x;
    assert w[..|t|] == t && w[|t|] == ':';
    assert w[|s|] == ':';
    assert forall i :: |s| + 1 <= i < |s| + 33 ==> w[i] == h[i - |s| - 1] != ':';
    assert |t| >= |s| + 33;
    assert t[|s| + 1..|s| + 33] == h;
    assert |t| > |s| + 33 ==> w[|s| + 33] == x[0];
  }

  lemma ManifestUnambiguous(a: Key, b: Key)
    requires a.Manifest? && b.Manifest? && Canonical(a) && Canonical(b)
    requires Body(a) == Body(b)
    ensures a == b
  {
    var x, y := VersionSuffix(a.version), VersionSuffix(b.version);
    if |a.manifestType| < |b.manifestType| {
      ManifestTypeOrder(a.manifestType, Hex(a.contentKey), x, b.manifestType, Hex(b.contentKey), y);
    } else if |b.manifestType| < |a.manifestType| {
      ManifestTypeOrder(b.manifestType, Hex(b.contentKey), y, a.manifestType, Hex(a.contentKey), x);
    }
    var n := |a.manifestType|;
    assert Body(a)[..n] == a.manifestType && Body(b)[..n] == b.manifestType;
    assert Body(a)[n + 1..] == Hex(a.contentKey) + x && Body(b)[n + 1..] == Hex(b.contentKey) + y;
    SplitHex(a.contentKey, x, b.contentKey, y);
    if a.version.Some? && b.version.Some? {
      assert x[1..] == a.version.value && y[1..] == b.version.value;
    }
  }

  lemma ArchiveRangeUnambiguous(a: Key, b: Key)
    requires a.ArchiveRange? && b.ArchiveRange?
    requires Body(a) == Body(b)
    ensures a == b
  {
    NumeralLacks(a.length, '+');
    NumeralLacks(b.length, '+');
    var x, y := a.archiveId + ":" + Decimal.Print(a.startOffset), b.archiveId + ":" + Decimal.Print(b.startOffset);
    SplitLast('+', x, Decimal.Print(a.length), y, Decimal.Print(b.length));
    NumeralLacks(a.startOffset, ':');
    NumeralLacks(b.startOffset, ':');
    SplitLast(':', a.archiveId, Decimal.Print(a.startOffset), b.archiveId, Decimal.Print(b.startOffset));
    Decimal.PrintInjective(a.startOffset, b.startOffset);
    Decimal.PrintInjective(a.length, b.length);
  }

  lemma BlteBlockUnambiguous(a: Key, b: Key)
    requires a.BlteBlock? && b.BlteBlock?
    requires Body(a) == Body(b)
    ensures a == b
  {
    var x, y := ":b" + Decimal.Print(a.blockIndex), ":b" + Decimal.Print(b.blockIndex);
    BlteBlockText(a);
    BlteBlockText(b);
    SplitWordHex(a.isDecompressed, b.isDecompressed, "decompressed", a.contentKey, x, b.contentKey, y);
    SplitNumber(":b", Some(a.blockIndex), Some(b.blockIndex));
  }

  lemma BlteBlockText(a: Key)
    requires a.BlteBlock?
    ensures Body(a) == Word(a.isDecompressed, "decompressed") + ":" + Hex(a.contentKey) + (":b" + Decimal.Print(a.blockIndex))
  {
    var w, h, n := Word(a.isDecompressed, "decompressed"), Hex(a.contentKey), Decimal.Print(a.blockIndex);
    assert w + ":" + h + ":b" + n == w + ":" + h + (":b" + n);
  }

  /** Canonical keys of any of the ten types print the same only if they are equal. */
  lemma CanonicalPrintsAreDistinct(a: Key, b: Key)
    requires Canonical(a) && Canonical(b)
    requires Print(a) == Print(b)
    ensures a == b
  {
    SameTag(a, b);
    match a
    case Ribbit(_, _, _) => RibbitUnambiguous(a, b);
    case Config(s, x) => SplitFirst(':', s, x, b.configType, b.hash);
    case ArchiveIndex(s, x) => SplitFirst(':', s, x, b.archiveName, b.indexHash);
    case Manifest(_, _, _) => ManifestUnambiguous(a, b);
    case ArchiveRange(_, _, _) => ArchiveRangeUnambiguous(a, b);
    case Content(key) => HexInjective(key, b.contentKey);
    case RootFile(key, p, v) =>
      SplitWordHex(p, b.isParsed, "parsed",
                   key, if v.Some? then ":v" + Decimal.Print(v.value) else "",
                   b.contentKey, if b.rootVersion.Some? then ":v" + Decimal.Print(b.rootVersion.value) else "");
      SplitNumber(":v", v, b.rootVersion);
    case EncodingFile(key, v, p) =>
      SplitWordHex(p, b.isParsed, "parsed",
                   key, if v.Some? then ":p" + Decimal.Print(v.value) else "",
                   b.encodingKey, if b.page.Some? then ":p" + Decimal.Print(b.page.value) else "");
      SplitNumber(":p", v, b.page);
    case Blte(key, block) =>
      if b.BlteBlock? {
        BlteIsNotBlteBlock(a, b);
      } else {
        SplitHex(key, if block.Some? then ":" + Decimal.Print(block.value) else "",
                 b.encodingKey, if b.block.Some? then ":" + Decimal.Print(b.block.value) else "");
        SplitNumber(":", block, b.block);
      }
    case BlteBlock(_, _, _) =>
      if b.Blte? {
        BlteIsNotBlteBlock(b, a);
      } else {
        BlteBlockUnambiguous(a, b);
      }
  }

  /** The text up to the first colon, and the text after it. */
  function SplitColon(s: string): (r: (string, string))
    requires !NoColon(s)
    ensures NoColon(r.0) && s == r.0 + ":" + r.1
  {
    if s[0] == ':' then ("", s[1..])
    else
      var (a, x) := SplitColon(s[1..]);
      assert s == [s[0]] + s[1..];
      ([s[0]] + a, x)
  }

  lemma {:induction false} LeastEmbeddedKey(s: string, n: nat) returns (i: nat)
    requires n < |s| && EmbeddedKeyAt(s, n)
    ensures i <= n && EmbeddedKeyAt(s, i)
    ensures forall j: nat :: j < i ==> !EmbeddedKeyAt(s, j)
  {
    if j: nat :| j < n && EmbeddedKeyAt(s, j) {
      i := LeastEmbeddedKey(s, j);
    } else {
      i := n;
    }
  }

  /** Cutting a manifest type at its first embedded key leaves none behind. */
  lemma CutManifestType(s: string, i: nat)
    requires EmbeddedKeyAt(s, i)
    requires forall j: nat :: j < i ==> !EmbeddedKeyAt(s, j)
    ensures forall j: nat :: j < i ==> !EmbeddedKeyAt(s[..i], j)
  {
    forall j: nat | j < i ensures !EmbeddedKeyAt(s[..i], j) {
      if j + 33 <= i {
        assert s[..i][j + 1..j + 33] == s[j + 1..j + 33];
        assert !EmbeddedKeyAt(s, j);
      }
    }
  }

  /** Moving the tail of a manifest type behind its embedded key leaves the text unchanged. */
  lemma RegroupManifest(s: string, i: nat, g: string, x: string) returns (version: string)
    requires EmbeddedKeyAt(s, i)
    ensures s + ":" + g + x == s[..i] + ":" + s[i + 1..i + 33] + (":" + version)
  {
    var h, u, rest := s[i + 1..i + 33], s[i + 33..], ":" + g + x;
    assert s[i..i + 1] == ":";
    assert s == s[..i] + s[i..i + 1] + h + u;
    assert s + ":" + g + x == s + rest;
    version := (u + rest)[1..];
    assert u + rest == ":" + version;
    assert s[..i] + ":" + h + u + rest == s[..i] + ":" + h + (u + rest);
  }

  lemma ManifestTwin(k: Key) returns (c: Key)
    requires k.Manifest? && !Canonical(k)
    ensures c.Manifest? && Canonical(c) && Body(c) == Body(k)
  {
    var s := k.manifestType;
    var n: nat :| n < |s| && EmbeddedKeyAt(s, n);
    var i := LeastEmbeddedKey(s, n);
    CutManifestType(s, i);
    var version := RegroupManifest(s, i, Hex(k.contentKey), VersionSuffix(k.version));
    c := Manifest(s[..i], UnHex(s[i + 1..i + 33]), Some(version));
  }

  lemma RibbitTwin(k: Key) returns (c: Key)
    requires k.Ribbit? && !Canonical(k)
    ensures c.Ribbit? && Canonical(c) && Body(c) == Body(k)
  {
    var tail := if k.product.Some? then k.product.value + ":" + k.endpoint else k.endpoint;
    var region, rest;
    if NoColon(k.region) {
      region, rest := k.region, tail;
    } else {
      var (a, x) := SplitColon(k.region);
      region, rest := a, x + ":" + tail;
      assert rest[|x|] == ':';
      assert k.region + ":" + tail == region + ":" + rest;
    }
    assert k.product.Some? ==> tail[|k.product.value|] == ':';
    assert !NoColon(rest);
    var (p, e) := SplitColon(rest);
    c := Ribbit(e, region, Some(p));
  }

  /** Every key prints like some canonical key, so every printed string names exactly one. */
  lemma CanonicalTwin(k: Key) returns (c: Key)
    ensures Canonical(c) && Print(c) == Print(k)
    ensures Canonical(k) <==> c == k
  {
    if Canonical(k) {
      c := k;
    } else {
      match k
      case Ribbit(_, _, _) => c := RibbitTwin(k);
      case Config(s, hash) =>
        var (a, x) := SplitColon(s);
        c := Config(a, x + ":" + hash);
        assert s + ":" + hash == a + ":" + (x + ":" + hash);
      case ArchiveIndex(s, hash) =>
        var (a, x) := SplitColon(s);
        c := ArchiveIndex(a, x + ":" + hash);
        assert s + ":" + hash == a + ":" + (x + ":" + hash);
      case Manifest(_, _, _) => c := ManifestTwin(k);
    }
  }

  /** The condition is exact: a key is canonical exactly when no other canonical key prints
      the same string. */
  lemma CanonicalIsExact(k: Key)
    ensures Canonical(k) <==> forall c :: Canonical(c) && Print(c) == Print(k) ==> c == k
  {
    var twin := CanonicalTwin(k);
    forall c | Canonical(c) && Print(c) == Print(k) ensures Canonical(k) ==> c == k {
      if Canonical(k) {
        CanonicalPrintsAreDistinct(c, k);
      }
    }
  }

  /** A colon in a text field: two different configuration keys with one text. */
  lemma ColonLookalikes(a: Key, b: Key)
    requires a == Config("a:b", "c") && b == Config("a", "b:c")
    ensures a != b && Print(a) == Print(b) && !Canonical(a) && Canonical(b)
  {
    assert "a:b" + ":" + "c" == "a" + ":" + "b:c";
    assert "a:b"[1] == ':';
  }
  /** The printed texts, type by type. */
  lemma TextsOfNames(configType: string, hash: string, key: Md5, version: string)
    ensures Print(Config(configType, hash)) == "config:" + configType + ":" + hash
    ensures Print(ArchiveIndex(configType, hash)) == "index:" + configType + ":" + hash
    ensures Print(Content(key)) == "content:" + Hex(key)
    ensures Print(Manifest(configType, key, None)) == "manifest:" + configType + ":" + Hex(key)
    ensures Print(Manifest(configType, key, Some(version))) == "manifest:" + configType + ":" + Hex(key) + ":" + version
  {
    assert "config" + ":" + (configType + ":" + hash) == "config:" + configType + ":" + hash;
    assert "index" + ":" + (configType + ":" + hash) == "index:" + configType + ":" + hash;
    assert "content" + ":" + Hex(key) == "content:" + Hex(key);
    var head := "manifest:" + configType + ":" + Hex(key);
    assert "manifest" + ":" + (configType + ":" + Hex(key) + "") == head;
    assert "manifest" + ":" + (configType + ":" + Hex(key) + (":" + version)) == head + ":" + version;
  }

  lemma TextsOfFiles(key: Md5, n: nat)
    ensures Print(RootFile(key, true, None)) == "root:parsed:" + Hex(key)
    ensures Print(RootFile(key, false, None)) == "root:raw:" + Hex(key)
    ensures Print(RootFile(key, true, Some(n))) == "root:parsed:" + Hex(key) + ":v" + Decimal.Print(n)
    ensures Print(RootFile(key, false, Some(n))) == "root:raw:" + Hex(key) + ":v" + Decimal.Print(n)
    ensures Print(EncodingFile(key, None, true)) == "encoding:parsed:" + Hex(key)
    ensures Print(EncodingFile(key, None, false)) == "encoding:raw:" + Hex(key)
    ensures Print(EncodingFile(key, Some(n), true)) == "encoding:parsed:" + Hex(key) + ":p" + Decimal.Print(n)
    ensures Print(EncodingFile(key, Some(n), false)) == "encoding:raw:" + Hex(key) + ":p" + Decimal.Print(n)
  {
    TaggedText("root", "parsed", Hex(key), "", "root:parsed:");
    TaggedText("root", "raw", Hex(key), "", "root:raw:");
    TaggedText("root", "parsed", Hex(key), ":v" + Decimal.Print(n), "root:parsed:");
    TaggedText("root", "raw", Hex(key), ":v" + Decimal.Print(n), "root:raw:");
    TaggedText("encoding", "parsed", Hex(key), "", "encoding:parsed:");
    TaggedText("encoding", "raw", Hex(key), "", "encoding:raw:");
    TaggedText("encoding", "parsed", Hex(key), ":p" + Decimal.Print(n), "encoding:parsed:");
    TaggedText("encoding", "raw", Hex(key), ":p" + Decimal.Print(n), "encoding:raw:");
    assert Hex(key) + (":v" + Decimal.Print(n)) == Hex(key) + ":v" + Decimal.Print(n);
  }

  lemma TaggedText(tag: string, word: string, hex: string, suffix: string, head: string)
    requires tag + ":" + word + ":" == head
    ensures tag + ":" + (word + ":" + hex + suffix) == head + hex + suffix
    ensures suffix == "" ==> head + hex + suffix == head + hex
    ensures |suffix| >= 2 ==> head + hex + suffix == head + hex + suffix[..2] + suffix[2..]
  {
  }

  lemma TextsOfBlocks(key: Md5, n: nat)
    ensures Print(Blte(key, None)) == "blte:" + Hex(key)
    ensures Print(Blte(key, Some(n))) == "blte:" + Hex(key) + ":" + Decimal.Print(n)
    ensures Print(BlteBlock(key, n, true)) == "blte:decompressed:" + Hex(key) + ":b" + Decimal.Print(n)
    ensures Print(BlteBlock(key, n, false)) == "blte:raw:" + Hex(key) + ":b" + Decimal.Print(n)
  {
    assert "blte:" + "decompressed" + ":" == "blte:decompressed:";
    assert "blte:" + "raw" + ":" == "blte:raw:";
    BlockText(Hex(key), ":", Decimal.Print(n));
    TaggedBlock("decompressed", Hex(key), Decimal.Print(n));
    TaggedBlock("raw", Hex(key), Decimal.Print(n));
  }

  lemma BlockText(hex: string, mark: string, digits: string)
    ensures "blte" + ":" + (hex + "") == "blte:" + hex
    ensures "blte" + ":" + (hex + (mark + digits)) == "blte:" + hex + mark + digits
  {
  }

  lemma TaggedBlock(word: string, hex: string, digits: string)
    ensures "blte" + ":" + (word + ":" + hex + ":b" + digits) == ("blte:" + word + ":") + hex + ":b" + digits
  {
  }

  lemma TextOfRange(id: string, m: nat, n: nat)
    ensures Print(ArchiveRange(id, m, n)) == "archive:" + id + ":" + Decimal.Print(m) + "+" + Decimal.Print(n)
  {
    RangeText(id, Decimal.Print(m), Decimal.Print(n));
  }

  lemma RangeText(id: string, start: string, length: string)
    ensures "archive" + ":" + (id + ":" + start + "+" + length) == "archive:" + id + ":" + start + "+" + length
  {
  }
}
