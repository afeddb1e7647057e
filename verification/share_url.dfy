/** The share link of server/utils/crypto.ts: `{base}/view/{id}#{key}`, with the message id
    in the path and the access key in the fragment, and its parser.

    The parser calls the WHATWG URL constructor, which is not modelled; it is a `UrlParser`
    parameter, and the two facts of the URL Standard the lemmas use are the predicate
    `UrlStandardFacts`. */
module ShareUrl {
  import opened Results
  import opened JsText
  import opened JsNumber
  import Hex

  /** The default `baseUrl` of generateSecureUrl. */
  const DefaultBaseUrl := ""

  /** generateSecureUrl(messageId, accessKey, baseUrl): the base, then the view path of the
      id, then the key as the fragment after '#'. */
  function GenerateSecureUrl(messageId: string, accessKey: string, baseUrl: string): (url: string)
    ensures |url| == |baseUrl| + 6 + |messageId| + 1 + |accessKey|
    ensures url[..|baseUrl|] == baseUrl
    ensures url[|baseUrl|..|baseUrl| + 6] == "/view/"
    ensures url[|baseUrl| + 6..|url| - |accessKey| - 1] == messageId
    ensures url[|url| - |accessKey| - 1] == '#' && url[|url| - |accessKey|..] == accessKey
  {
    baseUrl + "/view/" + messageId + "#" + accessKey
  }

  /** The `pathname` and `hash` of a parsed URL. */
  datatype UrlParts = UrlParts(pathname: string, hash: string)

  /** `new URL(url)` without a base: None when the constructor throws. */
  type UrlParser = string -> Option<UrlParts>

  predicate IsAsciiAlphanumeric(c: char) {
    'a' <= c <= 'z' || 'A' <= c <= 'Z' || '0' <= c <= '9'
  }

  /** A path segment or fragment that the URL parser keeps verbatim: ASCII letters, digits,
      '-' and '_' (nothing percent-encoded, no dot segment, no '/', '?', '#' or '\'). */
  predicate IsPlainSegment(s: string) {
    forall i :: 0 <= i < |s| ==> IsAsciiAlphanumeric(s[i]) || s[i] == '-' || s[i] == '_'
  }

  /** An absolute path made of plain segments. */
  predicate IsPlainPath(p: string) {
    && |p| > 0 && p[0] == '/'
    && forall i :: 0 <= i < |p| ==> IsAsciiAlphanumeric(p[i]) || p[i] == '-' || p[i] == '_' || p[i] == '/'
  }

  /** A character a plain host label is made of. */
  predicate IsHostChar(c: char) {
    'a' <= c <= 'z' || '0' <= c <= '9' || c == '-'
  }

  /** A host name that the host parser returns unchanged: non-empty dot-separated labels of
      lower-case letters, digits and hyphens. The last label begins with a letter, so the
      host is never read as an IPv4 address, and no "--" appears, so no label is an
      internationalized "xn--" label. */
  predicate IsPlainHost(h: string) {
    var labels := Split(h, '.');
    && (forall k :: 0 <= k < |labels| ==> |labels[k]| > 0)
    && (forall k, i :: 0 <= k < |labels| && 0 <= i < |labels[k]| ==> IsHostChar(labels[k][i]))
    && 'a' <= labels[|labels| - 1][0] <= 'z'
    && (forall i :: 0 <= i < |h| - 1 && h[i] == '-' ==> h[i + 1] != '-')
  }

  /** A port the URL parser accepts: decimal digits for a number up to 65535. */
  predicate IsPort(port: string) {
    0 < |port| <= 5 && AllDigits(port, 10) && ParseDigits(port, 10) <= 65535
  }

  /** A host with an optional port. */
  predicate IsAuthority(a: string) {
    var parts := Split(a, ':');
    || (|parts| == 1 && IsPlainHost(parts[0]))
    || (|parts| == 2 && IsPlainHost(parts[0]) && IsPort(parts[1]))
  }

  /** An http or https origin (a host and an optional port) with no path, query or
      fragment. */
  predicate IsOrigin(o: string) {
    || (StartsWith(o, "http://") && IsAuthority(o[7..]))
    || (StartsWith(o, "https://") && IsAuthority(o[8..]))
  }

  /** A plain host followed by a port makes an http origin. */
  lemma HostWithPort(host: string, port: string)
    requires IsPlainHost(host) && IsPort(port) && ':' !in host
    ensures IsOrigin("http://" + host + [':'] + port)
  {
    var o := "http://" + host + [':'] + port;
    assert o[7..] == host + [':'] + port;
    assert ':' !in port by {
      assert forall i :: 0 <= i < |port| ==> IsHexDigit(port[i]);
    }
    SplitFieldThenRest(host, port, ':');
    SplitWithoutSeparator(port, ':');
  }

  /** The usual development origin is an origin. */
  lemma LocalOriginExample(host: string, port: string)
    requires host == "localhost" && port == "3000"
    ensures IsOrigin("http://" + host + [':'] + port)
  {
    LabelExample(host);
    PortExample(port);
    HostWithPort(host, port);
  }

  /** A plain host without a port makes an https origin. */
  lemma HostOnlyOrigin(host: string)
    requires IsPlainHost(host) && ':' !in host
    ensures IsOrigin("https://" + host)
  {
    assert ("https://" + host)[8..] == host;
    SplitWithoutSeparator(host, ':');
  }

  /** Two labels of host characters joined by a dot, the second beginning with a letter,
      make a plain host. */
  lemma TwoLabelHost(name: string, tld: string)
    requires |name| > 0 && forall i :: 0 <= i < |name| ==> IsHostChar(name[i])
    requires |tld| > 0 && forall i :: 0 <= i < |tld| ==> IsHostChar(tld[i])
    requires 'a' <= tld[0] <= 'z'
    requires forall i :: 0 <= i < |name| - 1 && name[i] == '-' ==> name[i + 1] != '-'
    requires forall i :: 0 <= i < |tld| - 1 && tld[i] == '-' ==> tld[i + 1] != '-'
    ensures IsPlainHost(name + ['.'] + tld) && ':' !in name + ['.'] + tld
  {
    var h := name + ['.'] + tld;
    assert '.' !in name && '.' !in tld by {
      assert forall i :: 0 <= i < |name| ==> name[i] != '.';
      assert forall i :: 0 <= i < |tld| ==> tld[i] != '.';
    }
    SplitFieldThenRest(name, tld, '.');
    SplitWithoutSeparator(tld, '.');
    assert Split(h, '.') == [name, tld];
    forall i | 0 <= i < |h| ensures h[i] != ':' && (i < |h| - 1 && h[i] == '-' ==> h[i + 1] != '-') {
      if i < |name| - 1 {
        assert h[i] == name[i] && h[i + 1] == name[i + 1];
      } else if i == |name| - 1 {
        assert h[i] == name[i];
      } else if i > |name| {
        assert h[i] == tld[i - |name| - 1];
        if i < |h| - 1 {
          assert h[i + 1] == tld[i - |name|];
        }
      }
    }
  }

  /** A hyphenated two-label host is an origin. */
  lemma HyphenatedOriginExample(name: string, tld: string)
    requires name == "only-ghost" && tld == "app"
    ensures IsOrigin("https://" + name + ['.'] + tld)
  {
    TwoLabelHost(name, tld);
    HostOnlyOrigin(name + ['.'] + tld);
    assert "https://" + name + ['.'] + tld == "https://" + (name + ['.'] + tld);
  }

  /** A numeric host, which the parser reads as an IPv4 address, is not an origin here. */
  lemma NumericHostExample(h: string)
    requires h == "127.0.0.1"
    ensures !IsOrigin("http://" + h)
  {
    assert ("http://" + h)[7..] == h;
    assert ':' !in h;
    SplitWithoutSeparator(h, ':');
    SplitLastField(h, '.');
    var labels := Split(h, '.');
    var last := labels[|labels| - 1];
    assert '.' !in last;
  }

  /** A single-label host name of letters. */
  lemma LabelExample(h: string)
    requires |h| > 0 && forall i :: 0 <= i < |h| ==> 'a' <= h[i] <= 'z'
    ensures IsPlainHost(h)
  {
    assert '.' !in h by {
      assert forall i :: 0 <= i < |h| ==> h[i] != '.';
    }
    SplitWithoutSeparator(h, '.');
  }

  lemma PortExample(port: string)
    requires port == "3000"
    ensures IsPort(port)
  {
    assert port[..3] == "300" && "300"[..2] == "30" && "30"[..1] == "3" && "3"[..0] == "";
    assert ParseDigits(port, 10) == 3000;
  }

  /** What the URL Standard (WHATWG) guarantees for the inputs that matter here:
      a string that begins with '/' has no scheme and, without a base URL, fails to parse;
      an origin followed by a plain path and a plain fragment parses to that path, with
      `hash` the fragment after '#', or "" when the fragment is empty. */
  ghost predicate UrlStandardFacts(parse: UrlParser) {
    && (forall url :: |url| > 0 && url[0] == '/' ==> parse(url) == None)
    && (forall origin, path, fragment ::
          IsOrigin(origin) && IsPlainPath(path) && IsPlainSegment(fragment) ==>
            parse(Compose(origin, path, fragment))
              == Some(UrlParts(path, if fragment == "" then "" else "#" + fragment)))
  }

  /** A URL assembled from an origin, a path and a fragment. */
  function Compose(origin: string, path: string, fragment: string): string {
    origin + path + "#" + fragment
  }

  datatype SecureLink = SecureLink(messageId: string, accessKey: string)

  datatype UrlError = InvalidUrl

  /** parseSecureUrl: the last '/'-separated segment of the pathname is the message id, the
      hash without its first character is the access key. */
  function ParseSecureUrl(parse: UrlParser, url: string): (r: Result<SecureLink, UrlError>)
    ensures r.Err? <==> parse(url).None?
    ensures r.Ok? ==>
      var path, id := parse(url).value.pathname, r.value.messageId;
      && '/' !in id
      && |id| <= |path| && path[|path| - |id|..] == id
      && (|id| == |path| || path[|path| - |id| - 1] == '/')
    ensures r.Ok? ==>
      var hash := parse(url).value.hash;
      r.value.accessKey == if hash == "" then "" else hash[1..]
  {
    match parse(url)
    case None => Err(InvalidUrl)
    case Some(u) =>
      var parts := Split(u.pathname, '/');
      SplitLastField(u.pathname, '/');
      Ok(SecureLink(parts[|parts| - 1], Substring(u.hash, 1)))
  }

  /** Lower-case hex tokens (ids and keys) are plain segments. */
  lemma HexIsPlainSegment(s: string)
    requires Hex.IsLowerHex(s)
    ensures IsPlainSegment(s)
  {
    assert forall i :: 0 <= i < |s| ==> Hex.IsLowerHexDigit(s[i]);
  }

  /** The part of the link a browser sends to the server (everything before the first '#')
      holds the base and the id only; the access key is the rest. */
  lemma KeyOnlyInFragment(messageId: string, accessKey: string, baseUrl: string)
    requires '#' !in baseUrl && '#' !in messageId
    ensures var url := GenerateSecureUrl(messageId, accessKey, baseUrl);
      Split(url, '#')[0] == baseUrl + "/view/" + messageId
  {
    var sent := baseUrl + "/view/" + messageId;
    assert '#' !in sent by {
      assert sent == baseUrl + ("/view/" + messageId);
      assert forall i :: 0 <= i < |sent| ==> sent[i] != '#' by {
        forall i | 0 <= i < |sent| ensures sent[i] != '#' {
          if i < |baseUrl| {
            assert sent[i] == baseUrl[i];
          } else if i < |baseUrl| + 6 {
            assert sent[i] == "/view/"[i - |baseUrl|];
          } else {
            assert sent[i] == messageId[i - |baseUrl| - 6];
          }
        }
      }
    }
    SplitFieldThenRest(sent, accessKey, '#');
  }

  /** The view path of a plain id is a plain path whose fields are "", "view" and the id. */
  lemma ViewPath(messageId: string)
    requires IsPlainSegment(messageId)
    ensures IsPlainPath("/view/" + messageId)
    ensures Split("/view/" + messageId, '/') == ["", "view", messageId]
  {
    var path := "/view/" + messageId;
    forall i | 0 <= i < |path|
      ensures IsAsciiAlphanumeric(path[i]) || path[i] == '-' || path[i] == '_' || path[i] == '/'
    {
      if i >= 6 {
        assert path[i] == messageId[i - 6];
      }
    }
    assert '/' !in messageId by {
      assert forall i :: 0 <= i < |messageId| ==> messageId[i] != '/';
    }
    SplitWithoutSeparator(messageId, '/');
    SplitFieldThenRest("view", messageId, '/');
    assert "view" + ['/'] + messageId == "view/" + messageId;
    SplitFieldThenRest("", "view/" + messageId, '/');
    assert "" + ['/'] + ("view/" + messageId) == path;
  }

  /** Parsing a link built on an origin returns the id and key it was built from. */
  lemma ParseGeneratedUrl(parse: UrlParser, messageId: string, accessKey: string, baseUrl: string)
    requires UrlStandardFacts(parse)
    requires IsOrigin(baseUrl) && IsPlainSegment(messageId) && IsPlainSegment(accessKey)
    ensures ParseSecureUrl(parse, GenerateSecureUrl(messageId, accessKey, baseUrl))
      == Ok(SecureLink(messageId, accessKey))
  {
    var path := "/view/" + messageId;
    ViewPath(messageId);
    ParseComposed(parse, baseUrl, path, accessKey);
    GeneratedIsComposed(messageId, accessKey, baseUrl);
    var parts := parse(GenerateSecureUrl(messageId, accessKey, baseUrl)).value;
    assert Substring(parts.hash, 1) == accessKey;
  }

  lemma GeneratedIsComposed(messageId: string, accessKey: string, baseUrl: string)
    ensures GenerateSecureUrl(messageId, accessKey, baseUrl) == Compose(baseUrl, "/view/" + messageId, accessKey)
  {
  }

  lemma ParseComposed(parse: UrlParser, origin: string, path: string, fragment: string)
    requires UrlStandardFacts(parse)
    requires IsOrigin(origin) && IsPlainPath(path) && IsPlainSegment(fragment)
    ensures parse(Compose(origin, path, fragment)) == Some(UrlParts(path, if fragment == "" then "" else "#" + fragment))
  {
  }

  /** With the default empty base, the link is a path-absolute reference, which the URL
      constructor rejects: parseSecureUrl cannot read the link storeMessage returns. */
  lemma DefaultBaseLinkDoesNotParse(parse: UrlParser, messageId: string, accessKey: string)
    requires UrlStandardFacts(parse)
    ensures ParseSecureUrl(parse, GenerateSecureUrl(messageId, accessKey, DefaultBaseUrl)) == Err(InvalidUrl)
  {
    var url := GenerateSecureUrl(messageId, accessKey, DefaultBaseUrl);
    assert url[0] == '/';
  }
}
