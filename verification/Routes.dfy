/**
  Subscription links: the names of the formats, the path a link prints and the
  parser the server reads request paths with.
 */
module Routes {
  import opened Wrappers
  import opened Text
  import opened ConfigTransaction

  type u8 = n: nat | n <= 255

  datatype ClientVersion = ClientVersion(major: u8, minor: u8)

  datatype Format =
    | SingBox
    | SingBoxFull
    | SingBoxVersion(version: ClientVersion)
    | Clash
    | ClashLegacy(version: ClientVersion)
    | Uri
    | Base64Uri
    | Shadowrocket

  datatype Route = OfFormat(format: Format) | Qr(format: Format) | Index

  const SING_BOX_VERSIONS: seq<ClientVersion> := [
    ClientVersion(1, 10), ClientVersion(1, 11), ClientVersion(1, 12), ClientVersion(1, 13), ClientVersion(1, 14)]

  const CLASH_LEGACY_VERSION: ClientVersion := ClientVersion(1, 18)

  // ---------------------------------------------------------------- printing

  function VersionText(v: ClientVersion): string { Decimal(v.major) + "." + Decimal(v.minor) }

  function PathName(f: Format): string {
    match f
    case SingBox => "sing-box.json"
    case SingBoxFull => "sing-box-full.json"
    case SingBoxVersion(v) => "sing-box-" + VersionText(v) + ".json"
    case Clash => "clash.yaml"
    case ClashLegacy(v) => "clash-" + VersionText(v) + ".yaml"
    case Uri => "uri"
    case Base64Uri => "uri.txt"
    case Shadowrocket => "shadowrocket.txt"
  }

  function ArtifactName(f: Format): string {
    match f
    case SingBox => "subscription-" + "sing-box.json"
    case SingBoxFull => "subscription-" + "sing-box-full.json"
    case SingBoxVersion(v) => "subscription-" + ("sing-box-" + VersionText(v) + ".json")
    case Clash => "subscription-" + "clash.yaml"
    case ClashLegacy(v) => "subscription-" + ("clash-" + VersionText(v) + ".yaml")
    case Uri => "subscription-" + "uri.txt"
    case Base64Uri => "subscription-" + "base64-uri.txt"
    case Shadowrocket => "subscription-" + "shadowrocket.txt"
  }

  function Suffix(r: Route): string {
    match r
    case OfFormat(f) => PathName(f)
    case Qr(f) => "qr/" + PathName(f)
    case Index => "index"
  }

  /** The path of a link, after its scheme and host. */
  function RoutePath(credential: string, r: Route): string { "/sub/" + credential + "/" + Suffix(r) }

  // ---------------------------------------------------------------- parsing

  function StripPrefix(s: string, prefix: string): Option<string> {
    if prefix <= s then Some(s[|prefix|..]) else None
  }

  function StripSuffix(s: string, suffix: string): Option<string> {
    if |suffix| <= |s| && s[|s| - |suffix|..] == suffix then Some(s[..|s| - |suffix|]) else None
  }

  function Split(s: string, c: char): (parts: seq<string>)
    ensures parts != []
  {
    if s == [] then [[]]
    else
      var rest := Split(s[1..], c);
      if s[0] == c then [[]] + rest else [[s[0]] + rest[0]] + rest[1..]
  }

  function SplitOnce(s: string, c: char): Option<(string, string)> {
    if s == [] then None
    else if s[0] == c then Some(([], s[1..]))
    else
      match SplitOnce(s[1..], c)
      case None => None
      case Some((before, after)) => Some(([s[0]] + before, after))
  }

  /** Decimal digits after an optional plus sign, within eight bits; leading zeros are accepted. */
  function ParseU8(s: string): Option<u8> {
    var digits := if |s| > 1 && s[0] == '+' then s[1..] else s;
    if digits != [] && AllDigits(digits) && DecimalValue(digits) <= 255 then Some(DecimalValue(digits)) else None
  }

  function ParseClientVersion(s: string): Option<ClientVersion> {
    match SplitOnce(s, '.')
    case None => None
    case Some((major, minor)) =>
      if ParseU8(major).Some? && ParseU8(minor).Some?
      then Some(ClientVersion(ParseU8(major).value, ParseU8(minor).value)) else None
  }

  /** The text between a prefix and a suffix, as a version. */
  function VersionBetween(segment: string, prefix: string, suffix: string): Option<Option<ClientVersion>> {
    match StripPrefix(segment, prefix)
    case None => None
    case Some(rest) =>
      match StripSuffix(rest, suffix)
      case None => None
      case Some(version) => Some(ParseClientVersion(version))
  }

  /** The format a path segment names, registered or not. */
  function FormatNamed(segment: string): Option<Format> {
    if segment == "sing-box.json" then Some(SingBox)
    else if segment == "sing-box-full.json" then Some(SingBoxFull)
    else if segment == "clash.yaml" then Some(Clash)
    else if segment == "uri" then Some(Uri)
    else if segment == "uri.txt" then Some(Base64Uri)
    else if segment == "shadowrocket.txt" then Some(Shadowrocket)
    else
      match VersionBetween(segment, "sing-box-", ".json")
      case Some(version) => if version.Some? then Some(SingBoxVersion(version.value)) else None
      case None =>
        match VersionBetween(segment, "clash-", ".yaml")
        case Some(version) => if version.Some? then Some(ClashLegacy(version.value)) else None
        case None => None
  }

  predicate Registered(f: Format) {
    match f
    case SingBoxVersion(v) => v in SING_BOX_VERSIONS
    case ClashLegacy(v) => v == CLASH_LEGACY_VERSION
    case _ => true
  }

  function ParseFormatPath(segment: string): Option<Format> {
    match FormatNamed(segment)
    case Some(f) => if Registered(f) then Some(f) else None
    case None => None
  }

  /** The credential and route of the segments after `/sub/`; nothing may follow the format segment. */
  function RouteOfParts(parts: seq<string>): Option<(string, Route)> {
    if |parts| < 2 then None
    else if parts[1] == "index" then if |parts| == 2 then Some((parts[0], Index)) else None
    else if parts[1] == "qr" then
      if |parts| == 3 && ParseFormatPath(parts[2]).Some? then Some((parts[0], Qr(ParseFormatPath(parts[2]).value))) else None
    else if |parts| == 2 && ParseFormatPath(parts[1]).Some? then Some((parts[0], OfFormat(ParseFormatPath(parts[1]).value)))
    else None
  }

  function ParseRoute(target: string): Option<(string, Route)> {
    if '?' in target then None
    else
      match StripPrefix(target, "/sub/")
      case None => None
      case Some(rest) => RouteOfParts(Split(rest, '/'))
  }

  // ---------------------------------------------------------------- versions read back

  lemma {:induction false} SplitOnceAt(a: string, b: string, c: char)
    requires c !in a
    ensures SplitOnce(a + [c] + b, c) == Some((a, b))
    decreases |a|
  {
    var s := a + [c] + b;
    if a == [] {
      assert s[1..] == b;
    } else {
      assert s[0] == a[0] && a[0] in a;
      assert s[1..] == a[1..] + [c] + b;
      SplitOnceAt(a[1..], b, c);
      assert [a[0]] + a[1..] == a;
    }
  }

  lemma U8ReadsBack(n: u8)
    ensures ParseU8(Decimal(n)) == Some(n)
  {
    DecimalRoundTrip(n);
    assert Decimal(n)[0] in Decimal(n);
  }

  lemma VersionReadsBack(v: ClientVersion)
    ensures ParseClientVersion(VersionText(v)) == Some(v)
  {
    U8ReadsBack(v.major);
    U8ReadsBack(v.minor);
    SplitOnceAt(Decimal(v.major), Decimal(v.minor), '.');
  }

  lemma VersionBetweenReadsBack(prefix: string, v: ClientVersion, suffix: string)
    ensures VersionBetween(prefix + VersionText(v) + suffix, prefix, suffix) == Some(Some(v))
  {
    var segment := prefix + VersionText(v) + suffix;
    var rest := VersionText(v) + suffix;
    assert segment == prefix + rest && segment[|prefix|..] == rest;
    assert rest[|rest| - |suffix|..] == suffix && rest[..|rest| - |suffix|] == VersionText(v);
    VersionReadsBack(v);
  }

  /** A versioned sing-box name is no fixed name: after the prefix it goes on with a digit. */
  lemma SingBoxVersionNameIsNotFixed(v: ClientVersion)
    ensures var name := PathName(SingBoxVersion(v));
            && name[0] == 's' && |name| > 9 && name[8] == '-' && IsDigit(name[9])
  {
    var name := PathName(SingBoxVersion(v));
    assert name[0] == "sing-box-"[0] && name[8] == "sing-box-"[8];
    assert name[9] == Decimal(v.major)[0] && Decimal(v.major)[0] in Decimal(v.major);
  }

  lemma ClashLegacyNameIsNotFixed(v: ClientVersion)
    ensures var name := PathName(ClashLegacy(v));
            name[0] == 'c' && |name| > 6 && name[5] == '-' && !("sing-box-" <= name)
  {
    var name := PathName(ClashLegacy(v));
    assert name[0] == "clash-"[0] && name[5] == "clash-"[5];
    assert "sing-box-"[0] == 's';
  }

  lemma OtherNamesAreNoClashVersion(name: string)
    requires |name| > 6 && name[0] == 'c' && name[5] == '-'
    ensures name != "clash.yaml" && name != "uri" && name != "uri.txt"
    ensures name != "sing-box.json" && name != "sing-box-full.json" && name != "shadowrocket.txt"
  {
    assert "clash.yaml"[5] == '.' && "uri"[0] == 'u' && "uri.txt"[0] == 'u';
    assert "sing-box.json"[0] == 's' && "sing-box-full.json"[0] == 's' && "shadowrocket.txt"[0] == 's';
  }

  lemma SingBoxVersionReadsBack(v: ClientVersion)
    ensures FormatNamed(PathName(SingBoxVersion(v))) == Some(SingBoxVersion(v))
  {
    SingBoxVersionNameIsNotFixed(v);
    assert "sing-box.json"[8] == '.' && "sing-box-full.json"[9] == 'f' && "shadowrocket.txt"[8] == 'c';
    assert "clash.yaml"[0] == 'c' && "uri"[0] == 'u' && "uri.txt"[0] == 'u';
    VersionBetweenReadsBack("sing-box-", v, ".json");
  }

  lemma ClashLegacyReadsBack(v: ClientVersion)
    ensures FormatNamed(PathName(ClashLegacy(v))) == Some(ClashLegacy(v))
  {
    ClashLegacyNameIsNotFixed(v);
    OtherNamesAreNoClashVersion(PathName(ClashLegacy(v)));
    VersionBetweenReadsBack("clash-", v, ".yaml");
  }

  /** Every format is the one its path name names. */
  lemma PathNameReadsBack(f: Format)
    ensures FormatNamed(PathName(f)) == Some(f)
  {
    match f {
      case SingBoxVersion(v) => SingBoxVersionReadsBack(v);
      case ClashLegacy(v) => ClashLegacyReadsBack(v);
      case SingBox =>
      case SingBoxFull =>
        assert "sing-box.json"[8] == '.' && "sing-box-full.json"[8] == '-';
      case Clash =>
        assert "clash.yaml"[0] == 'c' && "sing-box.json"[0] == 's' && "sing-box-full.json"[0] == 's';
      case Uri =>
        assert "uri"[0] == 'u' && "sing-box.json"[0] == 's' && "sing-box-full.json"[0] == 's' && "clash.yaml"[0] == 'c';
      case Base64Uri =>
        assert "uri.txt"[0] == 'u' && "sing-box.json"[0] == 's' && "sing-box-full.json"[0] == 's' && "clash.yaml"[0] == 'c';
        assert |"uri.txt"| == 7 && |"uri"| == 3;
      case Shadowrocket =>
        assert "shadowrocket.txt"[1] == 'h' && "sing-box.json"[1] == 'i' && "sing-box-full.json"[1] == 'i';
        assert "shadowrocket.txt"[0] == 's' && "clash.yaml"[0] == 'c' && "uri"[0] == 'u' && "uri.txt"[0] == 'u';
    }
  }

  /** Over all versions, distinct formats have distinct path names. */
  lemma PathNamesAreDistinct(f: Format, g: Format)
    requires PathName(f) == PathName(g)
    ensures f == g
  {
    PathNameReadsBack(f);
    PathNameReadsBack(g);
  }

  // ---------------------------------------------------------------- artifact names

  predicate HasUriArtifact(f: Format) { f.Uri? || f.Base64Uri? }

  lemma ArtifactOfPathName(f: Format)
    ensures !HasUriArtifact(f) ==> ArtifactName(f) == "subscription-" + PathName(f)
    ensures ArtifactName(f)[|"subscription-"|..] == (if f.Uri? then "uri.txt" else if f.Base64Uri? then "base64-uri.txt" else PathName(f))
  {
  }

  lemma UriArtifactsStandApart(f: Format)
    requires !HasUriArtifact(f)
    ensures PathName(f) != "uri.txt" && PathName(f) != "base64-uri.txt"
  {
    assert PathName(Base64Uri) == "uri.txt";
    PathNameReadsBack(f);
    PathNameReadsBack(Base64Uri);
    assert PathName(f)[0] == 's' || PathName(f)[0] == 'c' by {
      match f {
        case SingBoxVersion(v) => SingBoxVersionNameIsNotFixed(v);
        case ClashLegacy(v) => ClashLegacyNameIsNotFixed(v);
        case _ =>
      }
    }
    assert "base64-uri.txt"[0] == 'b';
  }

  /** Over all versions, distinct formats have distinct artifact names, all owned by the generator. */
  lemma ArtifactNamesAreDistinct(f: Format, g: Format)
    ensures ArtifactName(f) == ArtifactName(g) ==> f == g
    ensures Owned(ArtifactName(f)) && ArtifactName(f) != SING_BOX_SERVER_ARTIFACT
  {
    assert SING_BOX_SERVER_ARTIFACT[1] == 'i' && ArtifactName(f)[1] == "subscription-"[1] == 'u';
    if ArtifactName(f) == ArtifactName(g) {
      ArtifactOfPathName(f);
      ArtifactOfPathName(g);
      if HasUriArtifact(f) || HasUriArtifact(g) {
        assert "uri.txt"[0] == 'u' && "base64-uri.txt"[0] == 'b';
        if !HasUriArtifact(f) {
          UriArtifactsStandApart(f);
        }
        if !HasUriArtifact(g) {
          UriArtifactsStandApart(g);
        }
      } else {
        PathNamesAreDistinct(f, g);
      }
    }
  }

  /**
    A generation of the server configuration and one artifact per distinct format
    never uses a name twice, which its transaction relies on.
   */
  lemma GeneratedNamesAreDistinct(formats: seq<Format>, artifacts: seq<Generated>)
    requires forall i, j :: 0 <= i < j < |formats| ==> formats[i] != formats[j]
    requires |artifacts| == |formats| + 1 && artifacts[0].name == SING_BOX_SERVER_ARTIFACT
    requires forall i :: 0 <= i < |formats| ==> artifacts[i + 1].name == ArtifactName(formats[i])
    ensures DistinctNames(artifacts)
    ensures forall i :: 0 <= i < |artifacts| ==> Owned(artifacts[i].name)
  {
    forall i | 0 < i < |artifacts| ensures artifacts[i].name == ArtifactName(formats[i - 1]) {
      assert artifacts[(i - 1) + 1].name == ArtifactName(formats[i - 1]);
    }
    forall f: Format ensures Owned(ArtifactName(f)) && ArtifactName(f) != SING_BOX_SERVER_ARTIFACT {
      ArtifactNamesAreDistinct(f, f);
    }
    forall i, j | 0 <= i < j < |artifacts| ensures artifacts[i].name != artifacts[j].name {
      if i > 0 {
        ArtifactNamesAreDistinct(formats[i - 1], formats[j - 1]);
      }
    }
  }

  // ---------------------------------------------------------------- routes read back

  predicate Segment(s: string) { '/' !in s && '?' !in s }

  /** The alphabet of a subscription credential. */
  predicate UrlSafe(c: char) { 'A' <= c <= 'Z' || 'a' <= c <= 'z' || '0' <= c <= '9' || c == '-' || c == '_' }

  predicate ValidCredential(credential: string) {
    |credential| >= 43 && forall c :: c in credential ==> UrlSafe(c)
  }

  lemma {:induction false} SplitLast(a: string, c: char)
    requires c !in a
    ensures Split(a, c) == [a]
    decreases |a|
  {
    if a != [] {
      assert a[0] in a;
      SplitLast(a[1..], c);
      assert [a[0]] + a[1..] == a;
    }
  }

  lemma {:induction false} SplitFirst(a: string, b: string, c: char)
    requires c !in a
    ensures Split(a + [c] + b, c) == [a] + Split(b, c)
    decreases |a|
  {
    var s := a + [c] + b;
    if a == [] {
      assert s[1..] == b;
    } else {
      assert s[0] == a[0] && a[0] in a;
      assert s[1..] == a[1..] + [c] + b;
      SplitFirst(a[1..], b, c);
      assert [a[0]] + a[1..] == a;
    }
  }

  lemma ConcatIsASegment(a: string, b: string)
    requires Segment(a) && Segment(b)
    ensures Segment(a + b)
  {
  }

  lemma PathNameIsASegment(f: Format)
    ensures Segment(PathName(f))
    ensures PathName(f) != "index" && PathName(f) != "qr"
  {
    match f {
      case SingBoxVersion(v) =>
        ConcatIsASegment("sing-box-", VersionText(v));
        ConcatIsASegment("sing-box-" + VersionText(v), ".json");
        SingBoxVersionNameIsNotFixed(v);
      case ClashLegacy(v) =>
        ConcatIsASegment("clash-", VersionText(v));
        ConcatIsASegment("clash-" + VersionText(v), ".yaml");
        ClashLegacyNameIsNotFixed(v);
        assert "index"[0] == 'i' && "qr"[0] == 'q';
      case Uri =>
        assert |"uri"| == 3 && |"index"| == 5 && |"qr"| == 2;
      case _ =>
    }
  }

  predicate Servable(r: Route) {
    match r
    case OfFormat(f) => Registered(f)
    case Qr(f) => Registered(f)
    case Index => true
  }

  function SuffixParts(r: Route): seq<string> {
    match r
    case OfFormat(f) => [PathName(f)]
    case Qr(f) => ["qr", PathName(f)]
    case Index => ["index"]
  }

  lemma SuffixSplits(r: Route)
    ensures '?' !in Suffix(r) && Split(Suffix(r), '/') == SuffixParts(r)
  {
    match r {
      case OfFormat(f) =>
        PathNameIsASegment(f);
        SplitLast(PathName(f), '/');
      case Qr(f) =>
        PathNameIsASegment(f);
        SplitLast(PathName(f), '/');
        assert "qr/" + PathName(f) == "qr" + "/" + PathName(f);
        SplitFirst("qr", PathName(f), '/');
      case Index =>
        SplitLast("index", '/');
    }
  }

  lemma PartsReadBack(credential: string, r: Route)
    ensures RouteOfParts([credential] + SuffixParts(r)) == if Servable(r) then Some((credential, r)) else None
  {
    match r {
      case OfFormat(f) =>
        PathNameIsASegment(f);
        PathNameReadsBack(f);
      case Qr(f) =>
        PathNameReadsBack(f);
        assert |"qr"| != |"index"|;
      case Index =>
    }
  }

  lemma PathSplits(credential: string, suffix: string)
    requires Segment(credential) && '?' !in suffix
    ensures var target := "/sub/" + credential + "/" + suffix;
            '?' !in target && StripPrefix(target, "/sub/") == Some(credential + "/" + suffix)
  {
    var target := "/sub/" + credential + "/" + suffix;
    assert target == "/sub/" + (credential + "/" + suffix);
    assert target[|"/sub/"|..] == credential + "/" + suffix;
  }

  /**
    The server parses every printed link path back to its credential and route,
    except that a version outside the registry is not served at all.
   */
  lemma RouteReadsBack(credential: string, r: Route)
    requires ValidCredential(credential)
    ensures ParseRoute(RoutePath(credential, r)) == if Servable(r) then Some((credential, r)) else None
  {
    SuffixSplits(r);
    PathSplits(credential, Suffix(r));
    SplitFirst(credential, Suffix(r), '/');
    PartsReadBack(credential, r);
  }

  /** Whatever the server accepts as a format is registered and prints a link it accepts again. */
  lemma AcceptedFormatsPrintBack(segment: string)
    requires ParseFormatPath(segment).Some?
    ensures Registered(ParseFormatPath(segment).value)
    ensures ParseFormatPath(PathName(ParseFormatPath(segment).value)) == ParseFormatPath(segment)
  {
    PathNameReadsBack(ParseFormatPath(segment).value);
  }

  /** A number is read from its digits, with leading zeros or a plus sign, and from nothing else. */
  lemma ReadNumbers(s: string, n: u8)
    ensures ParseU8(s) == Some(n)
       <==> exists digits :: digits != [] && AllDigits(digits) && DecimalValue(digits) == n && (s == digits || s == "+" + digits)
  {
    var rest := if s != [] then s[1..] else [];
    assert s != [] && s[0] == '+' ==> s == "+" + rest;
    if s != [] && s[0] == '+' {
      assert '+' in s && !AllDigits(s);
    }
    forall digits | s == "+" + digits ensures rest == digits {
    }
  }

  /** Of the versioned links exactly those of five sing-box versions and one Clash version are served. */
  lemma ServedVersions(v: ClientVersion)
    ensures ParseFormatPath(PathName(SingBoxVersion(v))).Some? <==> v.major == 1 && 10 <= v.minor <= 14
    ensures ParseFormatPath(PathName(ClashLegacy(v))).Some? <==> v == ClientVersion(1, 18)
  {
    PathNameReadsBack(SingBoxVersion(v));
    PathNameReadsBack(ClashLegacy(v));
    RegisteredVersions(v);
    assert ParseFormatPath(PathName(SingBoxVersion(v))).Some? <==> Registered(SingBoxVersion(v));
    assert ParseFormatPath(PathName(ClashLegacy(v))).Some? <==> Registered(ClashLegacy(v));
  }

  lemma RegisteredVersions(v: ClientVersion)
    ensures Registered(SingBoxVersion(v)) <==> v.major == 1 && 10 <= v.minor <= 14
    ensures Registered(ClashLegacy(v)) <==> v == ClientVersion(1, 18)
  {
    assert SING_BOX_VERSIONS[0] == ClientVersion(1, 10) && SING_BOX_VERSIONS[1] == ClientVersion(1, 11);
    assert SING_BOX_VERSIONS[2] == ClientVersion(1, 12) && SING_BOX_VERSIONS[3] == ClientVersion(1, 13);
    assert SING_BOX_VERSIONS[4] == ClientVersion(1, 14);
  }

  // ---------------------------------------------------------------- accepted targets

  function Joined(parts: seq<string>): string
    requires parts != []
  {
    if |parts| == 1 then parts[0] else parts[0] + "/" + Joined(parts[1..])
  }

  predicate NoSlashes(parts: seq<string>) { forall p :: p in parts ==> '/' !in p }

  lemma {:induction false} SplitIsJoined(s: string)
    ensures NoSlashes(Split(s, '/')) && Joined(Split(s, '/')) == s
    decreases |s|
  {
    if s != [] {
      SplitIsJoined(s[1..]);
      var rest := Split(s[1..], '/');
      assert s == [s[0]] + s[1..];
      if s[0] == '/' {
        EmptyFirst(rest);
      } else {
        LongerFirst(s[0], rest);
      }
    }
  }

  lemma EmptyFirst(rest: seq<string>)
    requires rest != [] && NoSlashes(rest)
    ensures NoSlashes([[]] + rest) && Joined([[]] + rest) == "/" + Joined(rest)
  {
    assert ([[]] + rest)[1..] == rest;
  }

  lemma LongerFirst(c: char, rest: seq<string>)
    requires rest != [] && NoSlashes(rest) && c != '/'
    ensures NoSlashes([[c] + rest[0]] + rest[1..]) && Joined([[c] + rest[0]] + rest[1..]) == [c] + Joined(rest)
  {
    var longer := [[c] + rest[0]] + rest[1..];
    assert longer[1..] == rest[1..];
    forall p | p in longer ensures '/' !in p {
      assert p == [c] + rest[0] || p in rest[1..];
    }
  }

  lemma {:induction false} JoinedSplits(parts: seq<string>)
    requires parts != [] && NoSlashes(parts)
    ensures Split(Joined(parts), '/') == parts
    decreases |parts|
  {
    if |parts| == 1 {
      SplitLast(parts[0], '/');
    } else {
      JoinedSplits(parts[1..]);
      SplitFirst(parts[0], Joined(parts[1..]), '/');
      assert parts == [parts[0]] + parts[1..];
    }
  }

  /** The segments after `/sub/` name the route, and nothing is left over. */
  ghost predicate IsRoute(parts: seq<string>, credential: string, r: Route) {
    match r
    case Index => parts == [credential, "index"]
    case Qr(f) => |parts| == 3 && parts[0] == credential && parts[1] == "qr" && ParseFormatPath(parts[2]) == Some(f)
    case OfFormat(f) => |parts| == 2 && parts[0] == credential && ParseFormatPath(parts[1]) == Some(f)
  }

  lemma NoFormatNames(segment: string)
    requires segment == "index" || segment == "qr"
    ensures ParseFormatPath(segment).None?
  {
    assert "index"[0] == 'i' && "qr"[0] == 'q' && "clash-"[0] == 'c' && "sing-box-"[0] == 's';
  }

  lemma PartsNameTheRoute(parts: seq<string>, credential: string, r: Route)
    ensures RouteOfParts(parts) == Some((credential, r)) <==> IsRoute(parts, credential, r)
  {
    if |parts| >= 2 && (parts[1] == "index" || parts[1] == "qr") {
      NoFormatNames(parts[1]);
      assert "index"[0] != "qr"[0];
    }
  }

  /** The requests that are served are exactly the links: no query, and not a segment more. */
  lemma AcceptedTargetsIff(target: string, credential: string, r: Route)
    ensures ParseRoute(target) == Some((credential, r))
       <==> '?' !in target && exists parts ::
              parts != [] && NoSlashes(parts) && IsRoute(parts, credential, r) && target == "/sub/" + Joined(parts)
  {
    if '?' !in target && "/sub/" <= target {
      var rest := target[|"/sub/"|..];
      assert target == "/sub/" + rest;
      SplitIsJoined(rest);
      PartsNameTheRoute(Split(rest, '/'), credential, r);
    }
    forall parts | parts != [] && NoSlashes(parts) && target == "/sub/" + Joined(parts)
      ensures StripPrefix(target, "/sub/") == Some(Joined(parts)) && Split(Joined(parts), '/') == parts
    {
      JoinedSplits(parts);
      assert target[|"/sub/"|..] == Joined(parts);
    }
  }
}
