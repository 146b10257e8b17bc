/** OauthHelper (ReactTwitter): the signing key and signature base string of
    section 3.4 of RFC 5849, the `Authorization: OAuth ...` header of section
    3.5.1, and the parser for the OAuth callback URL. */
module Oauth {
  import opened Wrappers
  import opened Text
  import opened OauthParams

  /** HMAC-SHA1 of a base string under a key, Base64-encoded (crypto-js),
      left abstract. */
  type Signer = (string, string) -> string

  /** What the callback URL is expected to start with; the parser drops this
      many characters without comparing them. */
  const CallbackPrefix: string := "react-twitter-oauth://callback?"

  /** Signing key of section 3.4.2 of RFC 5849: the encoded consumer secret,
      one `&`, and the encoded token secret, so the `&` is there even when the
      token secret is empty. */
  function SigningKey(enc: Encoder, consumerSecret: string, tokenSecret: string): (key: string)
    ensures var n := |enc(consumerSecret)|;
      |key| == n + 1 + |enc(tokenSecret)| && key[..n] == enc(consumerSecret) &&
      key[n] == '&' && key[n + 1..] == enc(tokenSecret)
  {
    enc(consumerSecret) + "&" + enc(tokenSecret)
  }

  /** When neither encoded secret holds `&`, the key splits back into them. */
  lemma SigningKeyFields(enc: Encoder, consumerSecret: string, tokenSecret: string)
    requires '&' !in enc(consumerSecret) && '&' !in enc(tokenSecret)
    ensures Split(SigningKey(enc, consumerSecret, tokenSecret), '&')
         == [enc(consumerSecret), enc(tokenSecret)]
  {
    var pieces := [enc(consumerSecret), enc(tokenSecret)];
    JoinWithTwo(enc(consumerSecret), enc(tokenSecret), '&');
    SplitJoin(pieces, '&');
  }

  /** Signature base string of section 3.4.1.1 of RFC 5849, given the
      collected (normalised) parameter string. */
  function BaseString(enc: Encoder, httpMethod: string, url: string, collected: string): (base: string)
    ensures var first := |httpMethod|;
      var second := first + 1 + |enc(url)|;
      |base| == second + 1 + |enc(collected)| && base[first] == '&' && base[second] == '&'
  {
    Upper(httpMethod) + "&" + enc(url) + "&" + enc(collected)
  }

  /** When no part holds `&`, the base string splits into exactly three fields:
      the upper-cased method, the encoded URL and the encoded parameters. */
  lemma BaseStringFields(enc: Encoder, httpMethod: string, url: string, collected: string)
    requires '&' !in httpMethod && '&' !in enc(url) && '&' !in enc(collected)
    ensures Split(BaseString(enc, httpMethod, url, collected), '&')
         == [Upper(httpMethod), enc(url), enc(collected)]
  {
    UpperKeepsAbsent(httpMethod, '&');
    SplitThree(Upper(httpMethod), enc(url), enc(collected), '&');
  }

  /** `base` is the signature base string for these parameters under some
      order the key sort may leave them in. */
  ghost predicate IsSignatureBase(enc: Encoder, base: string, httpMethod: string, url: string,
                                  params: seq<Param>, queryParams: seq<Param>)
  {
    exists arranged ::
      Arrangement(arranged, EncodeAll(enc, params) + EncodeAll(enc, queryParams)) &&
      base == BaseString(enc, httpMethod, url, JoinWith(Items(arranged), '&'))
  }

  /** _getSignatureBase. */
  method GetSignatureBase(enc: Encoder, httpMethod: string, url: string,
                          params: seq<Param>, queryParams: seq<Param>)
    returns (base: string)
    ensures IsSignatureBase(enc, base, httpMethod, url, params, queryParams)
  {
    var collected := CollectParameters(enc, params, queryParams);
    ghost var arranged :| Arrangement(arranged, EncodeAll(enc, params) + EncodeAll(enc, queryParams)) &&
                          collected == JoinWith(Items(arranged), '&');
    base := Upper(httpMethod) + "&" + enc(url) + "&" + enc(collected);
    assert base == BaseString(enc, httpMethod, url, JoinWith(Items(arranged), '&'));
  }

  /** With distinct encoded keys the base string is determined: reordering the
      parameters, or moving them between `params` and `queryParams`, gives the
      same base string. */
  lemma SignatureBaseOrderIndependent(enc: Encoder, httpMethod: string, url: string,
                                      b1: string, p1: seq<Param>, q1: seq<Param>,
                                      b2: string, p2: seq<Param>, q2: seq<Param>)
    requires IsSignatureBase(enc, b1, httpMethod, url, p1, q1)
    requires IsSignatureBase(enc, b2, httpMethod, url, p2, q2)
    requires multiset(p1 + q1) == multiset(p2 + q2)
    requires DistinctKeys(EncodeAll(enc, p1 + q1))
    ensures b1 == b2
  {
    var s1 :| Arrangement(s1, EncodeAll(enc, p1) + EncodeAll(enc, q1)) &&
              b1 == BaseString(enc, httpMethod, url, JoinWith(Items(s1), '&'));
    var s2 :| Arrangement(s2, EncodeAll(enc, p2) + EncodeAll(enc, q2)) &&
              b2 == BaseString(enc, httpMethod, url, JoinWith(Items(s2), '&'));
    CollectOrderIndependent(enc, p1, q1, s1, p2, q2, s2);
  }

  /** One `key="value", ` entry of the header. */
  function HeaderField(enc: Encoder, p: Param): string {
    enc(p.key) + "=\"" + enc(p.value) + "\", "
  }

  /** The header entries of all parameters, in input order: nothing exactly
      when there is no parameter. */
  function HeaderFields(enc: Encoder, ps: seq<Param>): (fields: string)
    ensures fields == "" <==> ps == []
  {
    if ps == [] then "" else HeaderField(enc, ps[0]) + HeaderFields(enc, ps[1..])
  }

  /** The entries of a concatenation are the concatenated entries. */
  lemma {:induction false} HeaderFieldsAppend(enc: Encoder, a: seq<Param>, b: seq<Param>)
    ensures HeaderFields(enc, a + b) == HeaderFields(enc, a) + HeaderFields(enc, b)
    decreases |a|
  {
    if a == [] {
      assert a + b == b;
    } else {
      assert (a + b)[0] == a[0];
      assert (a + b)[1..] == a[1..] + b;
      HeaderFieldsAppend(enc, a[1..], b);
    }
  }

  lemma HeaderFieldsSnoc(enc: Encoder, ps: seq<Param>, p: Param)
    ensures HeaderFields(enc, ps + [p]) == HeaderFields(enc, ps) + HeaderField(enc, p)
  {
    HeaderFieldsAppend(enc, ps, [p]);
    assert HeaderFields(enc, [p]) == HeaderField(enc, p) + HeaderFields(enc, []);
  }

  /** One more parameter extends the header prefix by its own entry. */
  lemma HeaderPrefixStep(enc: Encoder, ps: seq<Param>, i: nat)
    requires i < |ps|
    ensures "OAuth " + HeaderFields(enc, ps[..i + 1])
         == ("OAuth " + HeaderFields(enc, ps[..i])) + HeaderField(enc, ps[i])
  {
    var front := ps[..i];
    assert ps[..i + 1] == front + [ps[i]];
    HeaderFieldsSnoc(enc, front, ps[i]);
    ConcatAssoc("OAuth ", HeaderFields(enc, front), HeaderField(enc, ps[i]));
  }

  /** Parameter `i` contributes its own entry between those of the parameters
      before it and those after it. */
  lemma HeaderFieldAt(enc: Encoder, ps: seq<Param>, i: nat)
    requires i < |ps|
    ensures HeaderFields(enc, ps)
         == HeaderFields(enc, ps[..i]) + HeaderField(enc, ps[i]) + HeaderFields(enc, ps[i + 1..])
  {
    var before, from := ps[..i], ps[i..];
    assert HeaderFields(enc, ps) == HeaderFields(enc, before) + HeaderFields(enc, from) by {
      assert before + from == ps;
      HeaderFieldsAppend(enc, before, from);
    }
    assert HeaderFields(enc, from) == HeaderField(enc, ps[i]) + HeaderFields(enc, ps[i + 1..]) by {
      assert from[0] == ps[i] && from[1..] == ps[i + 1..];
    }
    ConcatAssoc(HeaderFields(enc, before), HeaderField(enc, ps[i]), HeaderFields(enc, ps[i + 1..]));
  }

  /** The closing `oauth_signature="..."` entry. */
  function SignatureField(enc: Encoder, signature: string): string {
    "oauth_signature=\"" + enc(signature) + "\""
  }

  /** The complete header for a given signature: `OAuth `, the parameter
      entries, and the signature entry last. */
  function AuthorizationHeader(enc: Encoder, params: seq<Param>, signature: string): (header: string)
    ensures var last := SignatureField(enc, signature);
      |header| == 6 + |HeaderFields(enc, params)| + |last| &&
      header[..6] == "OAuth " && header[6..|header| - |last|] == HeaderFields(enc, params) &&
      header[|header| - |last|..] == last
  {
    "OAuth " + HeaderFields(enc, params) + SignatureField(enc, signature)
  }

  /** The text before the first `=` of a pair: all of it when it has none. */
  function PairKey(pair: string): (key: string)
    ensures '=' !in key && |key| <= |pair| && key == pair[..|key|]
    ensures |key| < |pair| <==> '=' in pair
    ensures |key| < |pair| ==> pair[|key|] == '='
  {
    Split(pair, '=')[0]
  }

  /** The text between the first and the second `=` (or the end), undefined
      without `=`. */
  function PairValue(pair: string): (value: Option<string>)
    ensures value.None? <==> '=' !in pair
    ensures value.Some? ==> '=' !in value.value
  {
    var parts := Split(pair, '=');
    SplitFreeOf(pair, '=');
    if |parts| > 1 then Some(parts[1]) else None
  }

  /** The value starts right after the first `=` and runs to the next `=` or
      the end of the pair. */
  lemma PairValueAfterKey(pair: string)
    requires '=' in pair
    ensures var start := |PairKey(pair)| + 1;
      start <= |pair| && PairValue(pair) == Some(PairKey(pair[start..]))
  {
    var i := IndexOf(pair, '=');
    SplitAt(pair, '=', i);
  }

  /** `urlCallback.substr(prefix.length)`: empty when the URL is shorter. */
  function CallbackQuery(urlCallback: string): (query: string)
    ensures |urlCallback| < |CallbackPrefix| ==> query == ""
    ensures |urlCallback| >= |CallbackPrefix| ==>
      urlCallback == urlCallback[..|CallbackPrefix|] + query
  {
    if |urlCallback| >= |CallbackPrefix| then urlCallback[|CallbackPrefix|..] else ""
  }

  /** Only the length of what precedes the query matters, not its text. */
  lemma CallbackPrefixUnchecked(head: string, query: string)
    requires |head| == |CallbackPrefix|
    ensures CallbackQuery(head + query) == query
  {
    assert (head + query)[|head|..] == query;
  }

  /** Pair `i` is the last of the first `n` pairs whose key is `k`. */
  ghost predicate LastWithKey(pairs: seq<string>, n: nat, k: string, i: int) {
    0 <= i < n <= |pairs| && PairKey(pairs[i]) == k &&
    forall j :: i < j < n ==> PairKey(pairs[j]) != k
  }

  /** `result` holds the key of each of the first `n` pairs and nothing else,
      each mapped to the value of the last pair with that key. */
  ghost predicate ParsedUpTo(result: map<string, Option<string>>, pairs: seq<string>, n: nat) {
    n <= |pairs| &&
    (forall i :: 0 <= i < n ==> PairKey(pairs[i]) in result) &&
    (forall k :: k in result ==>
       exists i :: LastWithKey(pairs, n, k, i) && result[k] == PairValue(pairs[i]))
  }

  /** Storing pair `n` under its key extends the parse by one pair. */
  lemma ParsedStep(result: map<string, Option<string>>, pairs: seq<string>, n: nat)
    requires ParsedUpTo(result, pairs, n) && n < |pairs|
    ensures ParsedUpTo(result[PairKey(pairs[n]) := PairValue(pairs[n])], pairs, n + 1)
  {
    var k := PairKey(pairs[n]);
    var next := result[k := PairValue(pairs[n])];
    forall key | key in next
      ensures exists i :: LastWithKey(pairs, n + 1, key, i) && next[key] == PairValue(pairs[i])
    {
      if key == k {
        assert LastWithKey(pairs, n + 1, key, n);
      } else {
        var i :| LastWithKey(pairs, n, key, i) && result[key] == PairValue(pairs[i]);
        assert LastWithKey(pairs, n + 1, key, i);
      }
    }
  }

  /** getOauthTokenAndVerifierFromURLCallback: drops the prefix length, splits
      on `&`, and for each pair stores the text between the first and second
      `=` under the text before the first `=`; a later key overwrites. */
  method GetOauthTokenAndVerifierFromURLCallback(urlCallback: string)
    returns (result: map<string, Option<string>>)
    ensures ParsedUpTo(result, Split(CallbackQuery(urlCallback), '&'),
                       |Split(CallbackQuery(urlCallback), '&')|)
  {
    var content := if |urlCallback| >= |CallbackPrefix| then urlCallback[|CallbackPrefix|..] else "";
    var pairs := Split(content, '&');
    result := map[];
    for n := 0 to |pairs|
      invariant ParsedUpTo(result, pairs, n)
    {
      var values := Split(pairs[n], '=');
      ParsedStep(result, pairs, n);
      result := result[values[0] := if |values| > 1 then Some(values[1]) else None];
    }
  }

  /** A callback whose query was built by joining `key=value` items as
      _joinParams does parses back: pair `i` has the key and the value of
      parameter `i`, provided no key or value holds `&` or `=`. */
  lemma CallbackOfJoined(ps: seq<Param>)
    requires |ps| >= 1
    requires forall i :: 0 <= i < |ps| ==>
               '&' !in ps[i].key && '&' !in ps[i].value && '=' !in ps[i].key && '=' !in ps[i].value
    ensures var pairs := Split(CallbackQuery(CallbackPrefix + JoinWith(Items(ps), '&')), '&');
      |pairs| == |ps| &&
      forall i :: 0 <= i < |ps| ==> PairKey(pairs[i]) == ps[i].key && PairValue(pairs[i]) == Some(ps[i].value)
  {
    CallbackPrefixUnchecked(CallbackPrefix, JoinWith(Items(ps), '&'));
    JoinedSplitsIntoItems(ps);
    forall i | 0 <= i < |ps|
      ensures Split(Items(ps)[i], '=') == [ps[i].key, ps[i].value]
    {
      var pieces := [ps[i].key, ps[i].value];
      assert JoinWith(pieces, '=') == Item(ps[i]);
      SplitJoin(pieces, '=');
    }
  }

  /** Whatever map the parser returns for such a callback maps every key of
      distinct-keyed parameters to its own value. */
  lemma ParsedCallbackOfJoined(ps: seq<Param>, result: map<string, Option<string>>)
    requires |ps| >= 1 && DistinctKeys(ps)
    requires forall i :: 0 <= i < |ps| ==>
               '&' !in ps[i].key && '&' !in ps[i].value && '=' !in ps[i].key && '=' !in ps[i].value
    requires var pairs := Split(CallbackQuery(CallbackPrefix + JoinWith(Items(ps), '&')), '&');
      ParsedUpTo(result, pairs, |pairs|)
    ensures forall i :: 0 <= i < |ps| ==> ps[i].key in result && result[ps[i].key] == Some(ps[i].value)
  {
    CallbackOfJoined(ps);
    var pairs := Split(CallbackQuery(CallbackPrefix + JoinWith(Items(ps), '&')), '&');
    forall i | 0 <= i < |ps|
      ensures ps[i].key in result && result[ps[i].key] == Some(ps[i].value)
    {
      assert PairKey(pairs[i]) == ps[i].key;
      var j :| LastWithKey(pairs, |pairs|, ps[i].key, j) && result[ps[i].key] == PairValue(pairs[j]);
      assert PairKey(pairs[j]) == ps[j].key;
      assert j == i;
    }
  }

  /** OauthHelper: holds the application's consumer secret. */
  class OauthHelper {
    const consumerSecret: string

    constructor (consumerSecret: string)
      ensures this.consumerSecret == consumerSecret
    {
      this.consumerSecret := consumerSecret;
    }

    /** getSigningKey: signs the base string with the key of section 3.4.2 of
        RFC 5849; despite its name it returns the signature. */
    method GetSigningKey(enc: Encoder, sign: Signer, httpMethod: string, url: string,
                         params: seq<Param>, queryParams: seq<Param>, oauthTokenSecret: string)
      returns (signature: string)
      ensures exists base :: IsSignatureBase(enc, base, httpMethod, url, params, queryParams) &&
                             signature == sign(base, SigningKey(enc, consumerSecret, oauthTokenSecret))
    {
      var signingKey := enc(consumerSecret) + "&" + enc(oauthTokenSecret);
      var signatureBase := GetSignatureBase(enc, httpMethod, url, params, queryParams);
      signature := sign(signatureBase, signingKey);
      assert signingKey == SigningKey(enc, consumerSecret, oauthTokenSecret);
    }

    /** buildAuthorizationHeader: "OAuth ", an entry per parameter of `params`
        (not `queryParams`) in input order, then the encoded signature. */
    method BuildAuthorizationHeader(enc: Encoder, sign: Signer, httpMethod: string, url: string,
                                    params: seq<Param>, queryParams: seq<Param>, oauthTokenSecret: string)
      returns (output: string)
      ensures exists base :: IsSignatureBase(enc, base, httpMethod, url, params, queryParams) &&
                             output == AuthorizationHeader(enc, params, sign(base, SigningKey(enc, consumerSecret, oauthTokenSecret)))
    {
      output := "OAuth ";
      assert params[..0] == [];
      var signature := GetSigningKey(enc, sign, httpMethod, url, params, queryParams, oauthTokenSecret);
      ghost var base :| IsSignatureBase(enc, base, httpMethod, url, params, queryParams) &&
                        signature == sign(base, SigningKey(enc, consumerSecret, oauthTokenSecret));
      for i := 0 to |params|
        invariant output == "OAuth " + HeaderFields(enc, params[..i])
      {
        HeaderPrefixStep(enc, params, i);
        output := output + (enc(params[i].key) + "=\"" + enc(params[i].value) + "\", ");
      }
      assert params[..|params|] == params;
      output := output + ("oauth_signature=\"" + enc(signature) + "\"");
      assert output == AuthorizationHeader(enc, params, signature);
    }
  }
}
