/** The shaping loop of `fetch_offers` in jw_update.py: every raw offer of
    the configured country becomes one record of provider id, provider name,
    presentation type and link, in the order the catalogue gave them. */
module Offers {
  import opened Text
  import opened Records

  /** What `offers_for_countries` returned: offers keyed by country code, or
      a flat list (a `None` answer is the empty flat list). */
  datatype RawOffers = ByCountry(perCountry: map<string, seq<Record>>) | Flat(offers: seq<Record>)

  /** The normalised offer, the dictionary `fetch_offers` appends. */
  datatype Offer = Offer(providerId: Value, providerName: Value, presentationType: Value, url: Value)

  /** `raw.get(COUNTRY, [])` for a dictionary, the list itself otherwise. */
  function OffersFor(raw: RawOffers, country: string): seq<Record> {
    match raw
    case ByCountry(m) => if country in m then m[country] else []
    case Flat(xs) => xs
  }

  /** Python's `xs[0] or xs[1] or ... or xs[n-1]`. */
  function OrChain(xs: seq<Value>): Value
    requires |xs| > 0
  {
    if |xs| == 1 then xs[0] else Or(xs[0], OrChain(xs[1..]))
  }

  /** An `or` chain yields its first truthy operand, and its last operand
      when none is truthy. */
  lemma {:induction false} OrChainSpec(xs: seq<Value>)
    requires |xs| > 0
    ensures (forall i :: 0 <= i < |xs| ==> !Truthy(xs[i])) ==> OrChain(xs) == xs[|xs| - 1]
    ensures forall k :: 0 <= k < |xs| && Truthy(xs[k]) && (forall i :: 0 <= i < k ==> !Truthy(xs[i]))
                        ==> OrChain(xs) == xs[k]
  {
    if |xs| > 1 {
      OrChainSpec(xs[1..]);
      assert forall i :: 1 <= i < |xs| ==> xs[i] == xs[1..][i - 1];
    }
  }

  /** The link candidates of the `urls` container, in order of preference. */
  function UrlFields(urls: Value): seq<Value> {
    if urls.Obj? then [Get(urls.fields, "standard_web"), Get(urls.fields, "deeplink_web"), Get(urls.fields, "url")]
    else [Null, Null, Null]
  }

  /** The link of an offer: the `urls` container's `standard_web`, else its
      `deeplink_web`, else its `url`; when none of them is truthy, the
      offer's own `url`. */
  function OfferUrl(off: Record): Value {
    var urls := FirstPresent(off, ["urls"]);
    var url := if urls.Obj? then
                 Or(Get(urls.fields, "standard_web"), Or(Get(urls.fields, "deeplink_web"), Get(urls.fields, "url")))
               else Null;
    if Truthy(url) then url else FirstPresent(off, ["url"])
  }

  /** The link is the first truthy of the four sources, in preference order,
      and the top-level `url` when none is truthy. */
  lemma OfferUrlSpec(off: Record)
    ensures OfferUrl(off) == OrChain(UrlFields(FirstPresent(off, ["urls"])) + [FirstPresent(off, ["url"])])
  {
    var xs := UrlFields(FirstPresent(off, ["urls"])) + [FirstPresent(off, ["url"])];
    assert OrChain(xs[1..][1..][1..]) == xs[3];
    assert OrChain(xs[1..][1..]) == Or(xs[2], xs[3]);
    assert OrChain(xs[1..]) == Or(xs[1], Or(xs[2], xs[3]));
    assert OrChain(xs) == Or(xs[0], Or(xs[1], Or(xs[2], xs[3])));
  }

  function NormalizeOffer(off: Record): Offer {
    Offer(FirstPresent(off, ["provider_id", "providerId"]),
          FirstPresent(off, ["provider_name", "providerName"]),
          FirstPresent(off, ["presentation_type", "presentationType"]),
          OfferUrl(off))
  }

  /** The loop of `fetch_offers`: one normalised offer per raw offer, in
      order; offers are neither merged by provider nor dropped. */
  function NormalizeOffers(offers: seq<Record>): (out: seq<Offer>)
    ensures |out| == |offers|
    ensures forall i :: 0 <= i < |offers| ==> out[i] == NormalizeOffer(offers[i])
  {
    if offers == [] then [] else NormalizeOffers(offers[..|offers| - 1]) + [NormalizeOffer(offers[|offers| - 1])]
  }

  /** `fetch_offers(entry_id)`, given what `offers_for_countries` did:
      `None` when it raised, which yields no offers. */
  function FetchOffers(fetched: Option<RawOffers>, country: string): (out: seq<Offer>)
    ensures fetched.None? ==> out == []
    ensures fetched.Some? ==> |out| == |OffersFor(fetched.value, country)|
    ensures fetched.Some? ==> forall i :: 0 <= i < |out| ==> out[i] == NormalizeOffer(OffersFor(fetched.value, country)[i])
  {
    match fetched
    case None => []
    case Some(raw) => NormalizeOffers(OffersFor(raw, country))
  }
}
