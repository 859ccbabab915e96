/** Deriving the rate-limit identity of a caller from its request headers. */
module ClientIdentity {
  import opened Wrappers
  import opened JsValues

  /** The two request headers the identity is read from; `None` is a header
      the request does not carry (`headers.get` answering `null`). */
  datatype Headers = Headers(forwardedFor: Option<string>, realIp: Option<string>)

  /** `s.split(',')[0]`: everything before the first comma, or all of `s`
      when it has none. */
  function FirstPiece(s: string): (r: string)
    ensures |r| <= |s| && r == s[..|r|]
    ensures forall i :: 0 <= i < |r| ==> r[i] != ','
    ensures |r| == |s| || s[|r|] == ','
  {
    if s == [] || s[0] == ',' then [] else [s[0]] + FirstPiece(s[1..])
  }

  /** The client address an `x-forwarded-for` value names: its first
      comma-separated entry with surrounding whitespace removed. */
  function ForwardedClient(forwardedFor: string): string {
    Trim(FirstPiece(forwardedFor))
  }

  /** `getIp`: the forwarded client address when there is a non-blank one,
      else a non-empty `x-real-ip` exactly as sent, else `"unknown"`. */
  function GetIp(h: Headers): (r: string)
    ensures r != ""
    ensures h.forwardedFor.Some? && ForwardedClient(h.forwardedFor.value) != ""
            ==> r == ForwardedClient(h.forwardedFor.value)
    ensures (h.forwardedFor.None? || ForwardedClient(h.forwardedFor.value) == "")
            ==> r == (if h.realIp.Some? && h.realIp.value != "" then h.realIp.value else "unknown")
  {
    var forwarded := if h.forwardedFor.Some? then ForwardedClient(h.forwardedFor.value) else "";
    if forwarded != "" then forwarded
    else if h.realIp.Some? && h.realIp.value != "" then h.realIp.value
    else "unknown"
  }

  /** `FirstPiece` stops at the first comma: whatever follows it is ignored. */
  lemma {:induction false} FirstPieceStopsAtComma(a: string, b: string)
    requires forall i :: 0 <= i < |a| ==> a[i] != ','
    ensures FirstPiece(a + "," + b) == a
  {
    if a != [] {
      assert (a + "," + b)[1..] == a[1..] + "," + b;
      FirstPieceStopsAtComma(a[1..], b);
    }
  }

  /** Only the first entry of `x-forwarded-for` matters: the proxies a
      request passed through later never change the identity. */
  lemma IdentityIgnoresLaterProxies(client: string, proxies: string, realIp: Option<string>)
    requires forall i :: 0 <= i < |client| ==> client[i] != ','
    ensures GetIp(Headers(Some(client + "," + proxies), realIp)) == GetIp(Headers(Some(client), realIp))
  {
    FirstPieceStopsAtComma(client, proxies);
    assert FirstPiece(client) == client;
  }

  /** A non-blank forwarded address wins: `x-real-ip` is then not consulted. */
  lemma ForwardedWinsOverRealIp(forwardedFor: string, r1: Option<string>, r2: Option<string>)
    requires ForwardedClient(forwardedFor) != ""
    ensures GetIp(Headers(Some(forwardedFor), r1)) == GetIp(Headers(Some(forwardedFor), r2))
  {
  }

  /** An identity taken from `x-forwarded-for` is a single trimmed,
      comma-free entry of that header. */
  lemma ForwardedIdentityShape(h: Headers)
    requires h.forwardedFor.Some? && ForwardedClient(h.forwardedFor.value) != ""
    ensures Trimmed(GetIp(h))
    ensures forall i :: 0 <= i < |GetIp(h)| ==> GetIp(h)[i] != ','
  {
    var p := FirstPiece(h.forwardedFor.value);
    var r := Trim(p);
    forall i | 0 <= i < |r|
      ensures r[i] != ','
    {
      assert r[i] == p[KeptFrom(p) + i];
    }
  }

  /** Requests carrying neither header share the one bucket `"unknown"`. */
  lemma AnonymousRequestsShareIdentity()
    ensures GetIp(Headers(None, None)) == "unknown"
    ensures GetIp(Headers(Some(" , 10.0.0.1"), Some(""))) == "unknown"
  {
    BlankFirstEntry(" ", " 10.0.0.1");
    assert " , 10.0.0.1" == " " + "," + " 10.0.0.1";
  }

  /** A blank first entry of `x-forwarded-for` names no client. */
  lemma BlankFirstEntry(blank: string, rest: string)
    requires AllSpace(blank)
    ensures ForwardedClient(blank + "," + rest) == ""
  {
    assert forall i :: 0 <= i < |blank| ==> blank[i] != ',' by {
      forall i | 0 <= i < |blank| ensures blank[i] != ',' {
        assert IsSpace(blank[i]);
      }
    }
    FirstPieceStopsAtComma(blank, rest);
    TrimEmptyIff(blank);
  }
}
