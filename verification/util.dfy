/** The helpers of the `Util` class: base64 over the UTF-8 octets of a
    string, and the reply text of the weather lookup. */
module Util {
  import opened Wrappers
  import opened Strings
  import Utf8
  import Base64

  /** `Base64Encode`: the base64 text of the UTF-8 octets of `plainText`;
      total, four characters for every started group of three octets. */
  function Base64Encode(plainText: string): (r: string)
    ensures |r| == 4 * ((|Utf8.Encode(plainText)| + 2) / 3)
  {
    Base64.Encode(Utf8.Encode(plainText))
  }

  /** What `Base64Encode` yields is well-formed base64: alphabet characters,
      with at most two '=' and those at the very end. */
  lemma Base64EncodeWellFormed(plainText: string)
    ensures Base64.WellFormed(Base64Encode(plainText))
  {
    Base64.EncodeWellFormed(Utf8.Encode(plainText));
  }

  /** `Base64Decode`: base64 text back to octets, then to text. The octets
      step is the only one that can fail, and it fails exactly on text that is
      not well-formed base64; the UTF-8 step substitutes instead of failing. */
  function Base64Decode(base64EncodedData: string): (r: Result<string, Base64.DecodeError>)
    ensures r.Success? <==> Base64.WellFormed(base64EncodedData)
    ensures r.Failure? ==> Base64.Decode(base64EncodedData) == Failure(r.error)
  {
    Base64.DecodeSucceedsIff(base64EncodedData);
    match Base64.Decode(base64EncodedData)
    case Failure(e) => Failure(e)
    case Success(octets) => Success(Utf8.Decode(octets))
  }

  /** Round trip: any string survives `Base64Encode` then `Base64Decode`. */
  lemma Base64RoundTrip(s: string)
    ensures Base64Decode(Base64Encode(s)) == Success(s)
  {
    Base64.DecodeEncode(Utf8.Encode(s));
    Utf8.DecodeEncode(s);
  }

  /** The last vector of section 10 of RFC 4648, and one text outside ASCII
      (U+00E9 is the two UTF-8 octets C3 A9). */
  lemma Base64EncodeExamples()
    ensures Base64Encode("foobar") == "Zm9vYmFy"
    ensures Base64Encode("\U{00E9}") == "w6k="
  {
    assert Utf8.Encode("foobar") == [0x66, 0x6F, 0x6F, 0x62, 0x61, 0x72];
    assert Utf8.Encode("\U{00E9}") == [0xC3, 0xA9];
    Base64.EncodeTestVectors();
  }

  /** What the weather request produced: the six fields the summary is made
      of, or the description of whatever went wrong (the network, the HTTP
      status, the JSON or a missing object along the path). */
  datatype FetchOutcome =
    | Fetched(name: string, description: string, temp: string,
              tempMin: string, tempMax: string, humidity: string)
    | FetchFailed(diagnostic: string)

  const ErrorPrefix: string := ", error="

  /** The label written in front of each field of a weather summary, in the
      order the fields appear. */
  const SummaryLabels: seq<string> := ["", ", ", ", temperature ", ", low ", ", high ", ", humidity "]

  /** Each field behind its label, one after the other. */
  function Labelled(labels: seq<string>, fields: seq<string>): (r: string)
    requires |labels| == |fields|
    ensures |labels| > 0 ==> StartsWith(r, labels[0] + fields[0])
  {
    if labels == [] then "" else labels[0] + (fields[0] + Labelled(labels[1..], fields[1..]))
  }

  /** `GetWeather` after the request: always a string, never an error. A
      failure becomes its diagnostic after ", error="; a success becomes the
      name, description, temperature, low, high and humidity, each behind its
      label. */
  function GetWeather(fetch: FetchOutcome): (r: string)
    ensures fetch.FetchFailed? ==>
      StartsWith(r, ErrorPrefix) && r[|ErrorPrefix|..] == fetch.diagnostic
    ensures fetch.Fetched? ==>
      r == Labelled(SummaryLabels, [fetch.name, fetch.description, fetch.temp,
                                    fetch.tempMin, fetch.tempMax, fetch.humidity])
  {
    match fetch
    case Fetched(name, description, temp, low, high, humidity) =>
      LabelledSummary(name, description, temp, low, high, humidity);
      name + (", " + (description + (", temperature " + (temp + (", low " + (low
      + (", high " + (high + (", humidity " + humidity)))))))))
    case FetchFailed(diagnostic) =>
      ErrorPrefix + diagnostic
  }

  lemma LabelledSummary(name: string, description: string, temp: string,
                        low: string, high: string, humidity: string)
    ensures Labelled(SummaryLabels, [name, description, temp, low, high, humidity])
      == name + (", " + (description + (", temperature " + (temp + (", low " + (low
         + (", high " + (high + (", humidity " + humidity)))))))))
  {
    var fields := [name, description, temp, low, high, humidity];
    var labels := SummaryLabels;
    var h := ", humidity " + humidity;
    assert labels[5..] == [", humidity "] && fields[5..] == [humidity];
    assert Labelled(labels[5..], fields[5..]) == ", humidity " + (humidity + "");
    assert humidity + "" == humidity;
    assert labels[4..] == [", high "] + labels[5..] && fields[4..] == [high] + fields[5..];
    var g := ", high " + (high + h);
    assert Labelled(labels[4..], fields[4..]) == g;
    assert labels[3..] == [", low "] + labels[4..] && fields[3..] == [low] + fields[4..];
    var f := ", low " + (low + g);
    assert Labelled(labels[3..], fields[3..]) == f;
    assert labels[2..] == [", temperature "] + labels[3..] && fields[2..] == [temp] + fields[3..];
    var e := ", temperature " + (temp + f);
    assert Labelled(labels[2..], fields[2..]) == e;
    assert labels[1..] == [", "] + labels[2..] && fields[1..] == [description] + fields[2..];
    var d := ", " + (description + e);
    assert Labelled(labels[1..], fields[1..]) == d;
    assert "" + (name + d) == name + d;
  }

  /** The error marker tells failures from summaries as long as the place
      name does not begin with ','. */
  lemma ErrorMarkerDetectsFailure(fetch: FetchOutcome)
    requires fetch.Fetched? ==> fetch.name != [] && fetch.name[0] != ','
    ensures StartsWith(GetWeather(fetch), ErrorPrefix) <==> fetch.FetchFailed?
  {
    if fetch.Fetched? {
      var r := GetWeather(fetch);
      assert r[0] == fetch.name[0];
    }
  }

  /** ... but a summary for a place with an empty name whose description
      starts with "error=" reads exactly like a failure. */
  lemma ErrorMarkerAmbiguous()
    ensures StartsWith(GetWeather(Fetched("", "error=x", "1", "2", "3", "4")), ErrorPrefix)
  {
  }
}
