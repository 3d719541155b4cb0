/** One day's prices (`struct Prices`) and how `fetchPrices` fills one from
    the price API's answer. The HTTP transfer and the JSON decoding are
    foreign libraries; their outcome arrives here as a `Response` value. */
module Buckets {
  import opened ApiTime

  /** The fixed capacity of a day bucket: 25 hours on the day clocks fall
      back. */
  const MaxPrices := 25

  /** `HTTP_CODE_OK`. */
  const HttpOk := 200

  /** One hourly price. The source holds a `float` in kroner per kWh; the
      model holds thousandths of a krone, the precision the display prints. */
  datatype Price = Price(price: int, time: Tm)

  /** `struct Prices`: an availability flag, a count, and the fixed array of
      25 slots of which only the first `nPrices` were ever written. */
  datatype Prices = Prices(available: bool, nPrices: int, slots: seq<Price>)

  predicate Valid(p: Prices) {
    |p.slots| == MaxPrices && 0 <= p.nPrices <= MaxPrices
  }

  /** Stands for the contents of a slot nothing wrote (indeterminate in the
      source); no operation of the model reads it. */
  const Indeterminate := Price(0, Tm(0, 0, 0, 0, 0, 0, 0))

  /** `n` unwritten slots. */
  function Unwritten(n: nat): (s: seq<Price>)
    ensures |s| == n
  {
    if n == 0 then [] else [Indeterminate] + Unwritten(n - 1)
  }

  /** A default-constructed `Prices`: unavailable and empty. */
  const NoPrices := Prices(false, 0, Unwritten(MaxPrices))

  /** The meaningful prefix of a bucket, in array order. */
  function Entries(p: Prices): (es: seq<Price>)
    requires Valid(p)
    ensures |es| == p.nPrices
    ensures forall i :: 0 <= i < p.nPrices ==> es[i] == p.slots[i]
  {
    p.slots[..p.nPrices]
  }

  /** One object of the API's JSON array: `DKK_per_kWh` and `time_start`. */
  datatype ApiElement = ApiElement(dkkPerKwh: int, timeStart: string)

  /** What `deserializeJson` and `as<JsonArray>()` make of the payload: a
      parse error, a document that is not an array (which reads as an empty
      array), or the array's elements. */
  datatype JsonBody = Malformed | NotArray | Array(elements: seq<ApiElement>)

  /** The status code of `http.GET()` with the decoded payload. */
  datatype Response = Response(httpCode: int, body: JsonBody)

  /** The elements the `for (JsonVariant value : array)` loop visits. */
  function Elements(b: JsonBody): seq<ApiElement>
  {
    if b.Array? then b.elements else []
  }

  /** The answer is accepted: status OK and the payload parsed as JSON. */
  predicate Accepted(resp: Response) {
    resp.httpCode == HttpOk && !resp.body.Malformed?
  }

  /** What the fill loop needs for defined behaviour: no more elements than
      array slots, and a timestamp `sscanf` reads in full for each. */
  predicate Fillable(resp: Response) {
    |Elements(resp.body)| <= MaxPrices
    && forall i :: 0 <= i < |Elements(resp.body)| ==> WellFormedApiTime(Elements(resp.body)[i].timeStart)
  }

  function ToPrice(e: ApiElement): Price
    requires WellFormedApiTime(e.timeStart)
  {
    Price(e.dkkPerKwh, ParseApiTime(e.timeStart))
  }

  /** `fetchPrices` after the transfer: a rejected answer leaves the bucket
      as constructed, unavailable and empty; an accepted one copies every
      element, in array order, into the next slot, then sets the count and
      marks the bucket available. */
  method FetchPrices(resp: Response) returns (p: Prices)
    requires Accepted(resp) ==> Fillable(resp)
    ensures Valid(p)
    ensures p.available <==> Accepted(resp)
    ensures !p.available ==> p == NoPrices
    ensures p.available ==> p.nPrices == |Elements(resp.body)|
    ensures p.available ==> forall i :: 0 <= i < p.nPrices ==> p.slots[i] == ToPrice(Elements(resp.body)[i])
  {
    p := NoPrices;
    if resp.httpCode != HttpOk {
      return;
    }
    if resp.body.Malformed? {
      return;
    }
    var es := Elements(resp.body);
    var slots := p.slots;
    var c := 0;
    while c < |es|
      invariant 0 <= c <= |es|
      invariant |slots| == MaxPrices
      invariant forall i :: 0 <= i < c ==> slots[i] == ToPrice(es[i])
    {
      slots := slots[c := ToPrice(es[c])];
      c := c + 1;
    }
    p := Prices(true, c, slots);
  }
}
