/**
 * `extract_connection_info`: the identity a WebSocket connection is tracked
 * under, taken from the upgrade request. The device is the User-Agent, the
 * device id the `device_id` query parameter (or a random anonymous id), and
 * the client address the first hop of `X-Forwarded-For`, else `X-Real-IP`,
 * else the peer address of the socket.
 *
 * Headers are a map from the lower-case header name to the raw bytes of its
 * first value, each byte a character below 256. The random number and the
 * peer address are parameters.
 */
module WebSocket {
  import opened Wrappers
  import opened Text

  const USER_AGENT: string := "user-agent"
  const FORWARDED_FOR: string := "x-forwarded-for"
  const REAL_IP: string := "x-real-ip"
  const DEVICE_ID_PARAM: string := "device_id"
  const UNKNOWN_DEVICE: string := "Unknown Device"
  const ANON_PREFIX: string := "anon-"

  /** A byte that `HeaderValue::to_str` accepts: visible ASCII or a tab. */
  predicate VisibleByte(c: char)
  {
    c == '\t' || (' ' <= c <= '~')
  }

  predicate Visible(value: string)
  {
    forall i :: 0 <= i < |value| ==> VisibleByte(value[i])
  }

  /** `headers.get(name).and_then(|h| h.to_str().ok())`: the value of a present header that is visible text. */
  function Header(headers: map<string, string>, name: string): Option<string>
  {
    if name in headers && Visible(headers[name]) then Some(headers[name]) else None
  }

  /** `s.split(',').next().unwrap_or(s).trim()`: the first entry of a forwarding chain. */
  function ForwardedClient(value: string): string
  {
    Trim(Split(value, ',')[0])
  }

  /** `format!("anon-{}", id)`. */
  function AnonId(n: U32): string
  {
    ANON_PREFIX + Dec(n)
  }

  datatype ConnectionInfo = ConnectionInfo(ip: string, device: string, deviceId: string)

  /** `extract_connection_info`, with the random `u32` and the peer address given. */
  function ExtractConnectionInfo(headers: map<string, string>, params: map<string, string>, peerIp: string, anon: U32): ConnectionInfo
  {
    var device := Header(headers, USER_AGENT).GetOr(UNKNOWN_DEVICE);
    var deviceId := if DEVICE_ID_PARAM in params then params[DEVICE_ID_PARAM] else AnonId(anon);
    var ip :=
      match Header(headers, FORWARDED_FOR)
      case Some(chain) => ForwardedClient(chain)
      case None => Header(headers, REAL_IP).GetOr(peerIp);
    ConnectionInfo(ip, device, deviceId)
  }

  // ------------------------------------------------------------------
  // What the connection identity means

  /**
   * The device is the User-Agent exactly when that header is present and
   * visible text, and "Unknown Device" otherwise; either way it is visible
   * text.
   */
  lemma DeviceIsUserAgent(headers: map<string, string>, params: map<string, string>, peerIp: string, anon: U32)
    ensures var r := ExtractConnectionInfo(headers, params, peerIp, anon);
            (USER_AGENT in headers && Visible(headers[USER_AGENT]) ==> r.device == headers[USER_AGENT])
            && (!(USER_AGENT in headers && Visible(headers[USER_AGENT])) ==> r.device == UNKNOWN_DEVICE)
            && Visible(r.device)
  {
    var r := ExtractConnectionInfo(headers, params, peerIp, anon);
    assert Visible(UNKNOWN_DEVICE) by {
      forall i | 0 <= i < |UNKNOWN_DEVICE| ensures VisibleByte(UNKNOWN_DEVICE[i]) {
      }
    }
  }

  /** An anonymous id reads back as the number it was made from. */
  lemma AnonIdReadBack(n: U32)
    ensures |AnonId(n)| > |ANON_PREFIX| && AnonId(n)[..|ANON_PREFIX|] == ANON_PREFIX
    ensures ParseU32(AnonId(n)[|ANON_PREFIX|..]) == Some(n)
  {
    assert AnonId(n)[|ANON_PREFIX|..] == Dec(n);
    ParseU32Dec(n);
  }

  /** Different numbers give different anonymous ids. */
  lemma AnonIdsDiffer(a: U32, b: U32)
    requires a != b
    ensures AnonId(a) != AnonId(b)
  {
    AnonIdReadBack(a);
    AnonIdReadBack(b);
  }

  /**
   * The `device_id` parameter is taken verbatim when it is given; otherwise
   * the id is "anon-" followed by the random number, which reads back.
   */
  lemma DeviceIdChoice(headers: map<string, string>, params: map<string, string>, peerIp: string, anon: U32)
    ensures var r := ExtractConnectionInfo(headers, params, peerIp, anon);
            (DEVICE_ID_PARAM in params ==> r.deviceId == params[DEVICE_ID_PARAM])
            && (DEVICE_ID_PARAM !in params ==>
                  r.deviceId[..|ANON_PREFIX|] == ANON_PREFIX && ParseU32(r.deviceId[|ANON_PREFIX|..]) == Some(anon))
  {
    AnonIdReadBack(anon);
  }

  /**
   * The first hop of a forwarding chain: the text before the first comma
   * with the white space around it removed, so it holds no comma and neither
   * starts nor ends with white space.
   */
  lemma ForwardedClientMeaning(chain: string)
    ensures var first := Split(chain, ',')[0];
            var r := ForwardedClient(chain);
            |first| <= |chain| && first == chain[..|first|] && (|first| < |chain| ==> chain[|first|] == ',')
            && ',' !in r && (r == [] || (!IsWhitespace(r[0]) && !IsWhitespace(r[|r| - 1])))
            && exists i: nat :: TrimmedSliceAt(first, r, i)
  {
    var first := Split(chain, ',')[0];
    SplitFirst(chain, ',');
    TrimmedFirstHop(first);
    assert TrimmedSliceAt(first, ForwardedClient(chain), |first| - |TrimStart(first)|);
  }

  /** Trimming a comma-free entry leaves a comma-free slice of it with only white space around. */
  lemma TrimmedFirstHop(first: string)
    requires ',' !in first
    ensures ',' !in Trim(first)
    ensures TrimmedSliceAt(first, Trim(first), |first| - |TrimStart(first)|)
  {
    var r := Trim(first);
    var i := |first| - |TrimStart(first)|;
    TrimSlice(first);
    forall k | 0 <= k < |r| ensures r[k] != ',' {
      assert r[k] == first[i + k];
    }
  }

  /** `r` is `s[i..i + |r|]` and everything of `s` around it is white space. */
  predicate TrimmedSliceAt(s: string, r: string, i: nat)
  {
    i + |r| <= |s| && r == s[i..i + |r|] && TrimmedAround(s, i, i + |r|)
  }

  /** Proxies appended to the chain do not change the client. */
  lemma ForwardedClientFirstHop(hop: string, rest: string)
    requires ',' !in hop
    ensures ForwardedClient(hop + "," + rest) == Trim(hop)
  {
    SplitFirstOf(hop, rest, ',');
    assert hop + "," + rest == hop + [','] + rest;
  }

  /** A chain of one address without surrounding white space gives that address. */
  lemma ForwardedClientSingle(addr: string)
    requires ',' !in addr && (addr == [] || (!IsWhitespace(addr[0]) && !IsWhitespace(addr[|addr| - 1])))
    ensures ForwardedClient(addr) == addr
  {
    SplitNone(addr, ',');
  }

  /**
   * Where the client address comes from: a readable `X-Forwarded-For` wins,
   * then a readable `X-Real-IP` taken verbatim, then the peer address.
   */
  lemma AddressPrecedence(headers: map<string, string>, params: map<string, string>, peerIp: string, anon: U32)
    ensures var r := ExtractConnectionInfo(headers, params, peerIp, anon);
            (FORWARDED_FOR in headers && Visible(headers[FORWARDED_FOR]) ==> r.ip == ForwardedClient(headers[FORWARDED_FOR]))
            && (Header(headers, FORWARDED_FOR).None? && REAL_IP in headers && Visible(headers[REAL_IP]) ==> r.ip == headers[REAL_IP])
            && (Header(headers, FORWARDED_FOR).None? && Header(headers, REAL_IP).None? ==> r.ip == peerIp)
  {
  }
}
