/** Claims and the unsigned content of a JWT. Signing and compact
    serialisation are library code outside the model; a token is represented
    by what it carries. */
module Claims {
  import opened Wrappers
  import opened Time

  datatype Claim = Claim(claimType: string, value: string)

  /** `ClaimTypes.NameIdentifier`, `ClaimTypes.Email`, `ClaimTypes.Name`. */
  const NameIdentifierType: string := "http://schemas.xmlsoap.org/ws/2005/05/identity/claims/nameidentifier"
  const EmailType: string := "http://schemas.xmlsoap.org/ws/2005/05/identity/claims/emailaddress"
  const NameType: string := "http://schemas.xmlsoap.org/ws/2005/05/identity/claims/name"
  /** The registered JWT ID claim name. */
  const JwtIdType: string := "jti"

  /** The payload of a `JwtSecurityToken` before signing; `exp` is the
      NumericDate the payload stores, in whole seconds since the Unix epoch. */
  datatype AccessToken = AccessToken(issuer: string, audience: string, claims: seq<Claim>, exp: int)

  predicate HasType(claims: seq<Claim>, claimType: string) {
    exists i :: 0 <= i < |claims| && claims[i].claimType == claimType
  }

  /** `i` is the position of the first claim of type `claimType`. */
  predicate IsFirstOfType(claims: seq<Claim>, i: int, claimType: string) {
    0 <= i < |claims| && claims[i].claimType == claimType
    && forall j :: 0 <= j < i ==> claims[j].claimType != claimType
  }

  /** `claims.FirstOrDefault(c => c.Type == claimType)?.Value`. */
  function FirstValue(claims: seq<Claim>, claimType: string): (r: Option<string>)
    ensures r.None? <==> !HasType(claims, claimType)
    ensures r.Some? ==> exists i :: IsFirstOfType(claims, i, claimType) && claims[i].value == r.value
    decreases |claims|
  {
    if |claims| == 0 then None
    else if claims[0].claimType == claimType then
      assert IsFirstOfType(claims, 0, claimType);
      Some(claims[0].value)
    else
      var r := FirstValue(claims[1..], claimType);
      assert HasType(claims, claimType) ==> HasType(claims[1..], claimType) by {
        if HasType(claims, claimType) {
          var i :| 0 <= i < |claims| && claims[i].claimType == claimType;
          assert claims[1..][i - 1] == claims[i];
        }
      }
      assert r.Some? ==> exists i :: IsFirstOfType(claims, i, claimType) && claims[i].value == r.value by {
        if r.Some? {
          var i :| IsFirstOfType(claims[1..], i, claimType) && claims[1..][i].value == r.value;
          assert claims[i + 1] == claims[1..][i];
          assert forall j :: 1 <= j < i + 1 ==> claims[j] == claims[1..][j - 1];
          assert IsFirstOfType(claims, i + 1, claimType);
        }
      }
      r
  }

  /** The first match wins whatever follows it. */
  lemma FirstValueOfPrefix(claims: seq<Claim>, rest: seq<Claim>, claimType: string)
    requires HasType(claims, claimType)
    ensures FirstValue(claims + rest, claimType) == FirstValue(claims, claimType)
    decreases |claims|
  {
    if claims[0].claimType != claimType {
      assert (claims + rest)[1..] == claims[1..] + rest;
      var i :| 0 <= i < |claims| && claims[i].claimType == claimType;
      assert claims[1..][i - 1] == claims[i];
      FirstValueOfPrefix(claims[1..], rest, claimType);
    }
  }
}
