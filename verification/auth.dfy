/** Authorization headers (go2postman.go, the identical blocks in ParseCurlCommand and
    ParseHttpRequest): a header whose key lower-cases to "authorization" and whose value
    starts with "Bearer " or "Basic " sets the request's auth, replacing any earlier one. */
module AuthExtractor {
  import opened Wrappers
  import opened GoStrings
  import opened Postman

  const BearerPrefix := "Bearer "
  const BasicPrefix := "Basic "

  /** The auth one header sets, if any: the credential is the value without its scheme
      prefix, stored under "token" for Bearer and under "password" for Basic. */
  function AuthOf(h: Header): (a: Option<Auth>)
    ensures a.Some? <==> LowerEquals(h.key, "authorization") && (HasPrefix(h.value, BearerPrefix) || HasPrefix(h.value, BasicPrefix))
    ensures a.Some? ==> a.value.detail.kind == "string"
    ensures a.Some? && a.value.scheme == Bearer ==>
      a.value.detail.key == "token" && h.value == BearerPrefix + a.value.detail.value
    ensures a.Some? && a.value.scheme == Basic ==>
      a.value.detail.key == "password" && h.value == BasicPrefix + a.value.detail.value
    ensures a.Some? && HasPrefix(h.value, BearerPrefix) ==> a.value.scheme == Bearer
  {
    if !LowerEquals(h.key, "authorization") then None
    else if HasPrefix(h.value, BearerPrefix) then
      assert h.value == BearerPrefix + h.value[|BearerPrefix|..];
      Some(Auth(Bearer, AuthDetail("token", h.value[|BearerPrefix|..], "string")))
    else if HasPrefix(h.value, BasicPrefix) then
      assert h.value == BasicPrefix + h.value[|BasicPrefix|..];
      Some(Auth(Basic, AuthDetail("password", h.value[|BasicPrefix|..], "string")))
    else None
  }

  /** One turn of the header loop: a recognised header replaces the auth, any other keeps it. */
  function AuthStep(current: Option<Auth>, h: Header): (a: Option<Auth>)
    ensures AuthOf(h).Some? ==> a == AuthOf(h)
    ensures AuthOf(h).None? ==> a == current
  {
    if AuthOf(h).Some? then AuthOf(h) else current
  }

  /** The auth after the loop has visited `hs` in order, starting from `current`. */
  function AuthAfter(current: Option<Auth>, hs: seq<Header>): (a: Option<Auth>)
    ensures (forall j :: 0 <= j < |hs| ==> AuthOf(hs[j]).None?) ==> a == current
    ensures a == current || exists j :: 0 <= j < |hs| && a == AuthOf(hs[j])
    decreases |hs|
  {
    if |hs| == 0 then current else AuthAfter(AuthStep(current, hs[0]), hs[1..])
  }

  /** The index of the last header that sets an auth, searching from the back. */
  function LastAuthIndex(hs: seq<Header>): (r: Option<nat>)
    ensures r.Some? ==> r.value < |hs| && AuthOf(hs[r.value]).Some?
    ensures r.Some? ==> forall j :: r.value < j < |hs| ==> AuthOf(hs[j]).None?
    ensures r.None? ==> forall j :: 0 <= j < |hs| ==> AuthOf(hs[j]).None?
    decreases |hs|
  {
    if |hs| == 0 then None
    else if AuthOf(hs[|hs| - 1]).Some? then Some(|hs| - 1)
    else LastAuthIndex(hs[..|hs| - 1])
  }

  /** Visiting one more header is one more step. */
  lemma {:induction false} AuthAfterSnoc(current: Option<Auth>, hs: seq<Header>, h: Header)
    ensures AuthAfter(current, hs + [h]) == AuthStep(AuthAfter(current, hs), h)
    decreases |hs|
  {
    if |hs| == 0 {
      assert ([] + [h])[1..] == [];
    } else {
      assert (hs + [h])[1..] == hs[1..] + [h];
      AuthAfterSnoc(AuthStep(current, hs[0]), hs[1..], h);
    }
  }

  /** The loop leaves the auth of the last recognised header, or the starting auth when
      no header is recognised. */
  lemma {:induction false} AuthIsLastRecognised(current: Option<Auth>, hs: seq<Header>)
    ensures AuthAfter(current, hs) ==
      match LastAuthIndex(hs)
      case None => current
      case Some(i) => AuthOf(hs[i])
    decreases |hs|
  {
    if |hs| > 0 {
      var init := hs[..|hs| - 1];
      var h := hs[|hs| - 1];
      assert hs == init + [h];
      AuthAfterSnoc(current, init, h);
      AuthIsLastRecognised(current, init);
    }
  }

  /** A header that is not a recognised authorization leaves the auth as it was. */
  lemma UnrecognisedKeepsAuth(current: Option<Auth>, hs: seq<Header>, h: Header)
    requires AuthOf(h).None?
    ensures AuthAfter(current, hs + [h]) == AuthAfter(current, hs)
  {
    AuthAfterSnoc(current, hs, h);
  }

  /** A recognised authorization header wins over everything before it. */
  lemma RecognisedWins(current: Option<Auth>, hs: seq<Header>, h: Header)
    requires AuthOf(h).Some?
    ensures AuthAfter(current, hs + [h]) == AuthOf(h)
  {
    AuthAfterSnoc(current, hs, h);
  }

  /** A bearer header as clients write it yields its token. */
  lemma BearerRoundTrip(key: string, token: string)
    requires LowerEquals(key, "authorization")
    ensures AuthOf(Header(key, BearerPrefix + token, "text")) == Some(Auth(Bearer, AuthDetail("token", token, "string")))
  {
    assert (BearerPrefix + token)[..|BearerPrefix|] == BearerPrefix;
  }

  /** A basic header yields its credential under "password". */
  lemma BasicRoundTrip(key: string, credential: string)
    requires LowerEquals(key, "authorization")
    ensures AuthOf(Header(key, BasicPrefix + credential, "text")) == Some(Auth(Basic, AuthDetail("password", credential, "string")))
  {
    assert (BasicPrefix + credential)[..|BasicPrefix|] == BasicPrefix;
    assert !HasPrefix(BasicPrefix + credential, BearerPrefix) by {
      assert (BasicPrefix + credential)[1] == 'a';
    }
  }

  /** The key comparison ignores ASCII case: two keys that fold to the same runes
      ("AUTHORIZATION" and "authorization", say) give the same auth. */
  lemma KeyIgnoresCase(k1: string, k2: string, value: string, kind: string)
    requires |k1| == |k2| && forall i :: 0 <= i < |k1| ==> FoldAscii(k1[i]) == FoldAscii(k2[i])
    ensures AuthOf(Header(k1, value, kind)) == AuthOf(Header(k2, value, kind))
  {
    assert LowerEquals(k1, "authorization") <==> LowerEquals(k2, "authorization");
  }

  /** The scheme comparison does not ignore case: a value starting with a lower-case 'b'
      ("bearer t", "basic x") is never recognised, whatever the key. */
  lemma SchemeIsCaseSensitive(key: string, value: string, kind: string)
    requires |value| > 0 && value[0] == 'b'
    ensures AuthOf(Header(key, value, kind)).None?
  {
    assert !HasPrefix(value, BearerPrefix) by { assert value[0] != BearerPrefix[0]; }
    assert !HasPrefix(value, BasicPrefix) by { assert value[0] != BasicPrefix[0]; }
  }
}
