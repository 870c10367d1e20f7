/** What `handle_message` does with one message: the JSON parse first, the
    frame decoder as a fallback, the raw text last; and what
    `print_compact_strike` makes of the parsed value. The printed line is
    modelled as a `Report` value holding the fields that the source computes;
    the receipt-time prefix and the float formatting are not part of it. */
module Render {
  import opened Payload
  import opened Decoder
  import opened Timestamp
  import Encoder

  /** The foreign and environment-dependent pieces the client calls:
      `loads` is `json.loads` (`None` where it raises), `show` is `str`,
      `clock(t, n)` is the local `%H:%M:%S` time of `t / n` seconds after the
      epoch (`None` where the conversion raises), and `wholeSeconds` is the
      `.0f` rendering of the delay. */
  datatype Env = Env(
    loads: string -> Option<Json>,
    show: Json -> string,
    clock: (int, nat) -> Option<string>,
    wholeSeconds: Json -> string)

  /** What one message makes the client print. `Failed` is the error line
      printed when an exception escapes the summary. */
  datatype Report =
    | Strike(strikeTime: string, polarity: char, region: string, stations: nat)
    | NonDict(shown: string)
    | Raw(shown: string)
    | Failed

  /** Where the value that is summarised comes from. */
  datatype Route = Direct(data: Json) | Decoded(data: Json) | Undecodable

  const RawLimit: nat := 100
  const NonDictLimit: nat := 80
  const Ellipsis: string := "..."

  /** `s[:limit] + ('...' if len(s) > limit else '')`. */
  function Truncate(s: string, limit: nat): (r: string)
    ensures |s| <= limit ==> r == s
    ensures |s| > limit ==> r == s[..limit] + Ellipsis
    ensures |r| <= limit + |Ellipsis|
  {
    s[..if |s| < limit then |s| else limit] + (if |s| > limit then Ellipsis else "")
  }

  /** `"+" if pol == 1 else "-" if pol == 0 else "?"`, where Python's `==`
      makes `True` equal to 1 and `False` equal to 0. */
  function Polarity(pol: Json): (symbol: char)
    ensures symbol == '+' <==> NumericValue(pol) == Some(1)
    ensures symbol == '-' <==> NumericValue(pol) == Some(0)
    ensures symbol == '?' <==> NumericValue(pol) !in {Some(0), Some(1)}
  {
    match NumericValue(pol)
    case Some(1) => '+'
    case Some(0) => '-'
    case _ => '?'
  }

  /** `print_compact_strike`. A dict is summarised field by field with the
      defaults of `dict.get` (0 for `time`, `pol`, `region` and `delay`, an
      empty list for `sig`); `len` of a `sig` that is not a string, list or
      dict raises, and the message ends as an error line. Any other value is
      shown as its string form, cut at 80 characters. */
  function Summarize(env: Env, data: Json): (rep: Report)
    ensures !data.Dict? ==> rep == NonDict(Truncate(env.show(data), NonDictLimit))
    ensures rep.NonDict? <==> !data.Dict?
    ensures data.Dict? ==> (rep.Failed? <==> Length(Get(data.fields, "sig", List([]))).None?)
    ensures data.Dict? ==> (rep.Strike? <==> Length(Get(data.fields, "sig", List([]))).Some?)
    ensures rep.Strike? ==>
      && data.Dict?
      && rep.polarity == Polarity(Get(data.fields, "pol", Int(0)))
      && rep.strikeTime == StrikeTime(Get(data.fields, "time", Int(0)), Get(data.fields, "delay", Int(0)),
                                      env.clock, env.wholeSeconds)
      && rep.region == env.show(Get(data.fields, "region", Int(0)))
      && Some(rep.stations) == Length(Get(data.fields, "sig", List([])))
    ensures !rep.Raw?
  {
    match data
    case Dict(fields) =>
      var stations := Length(Get(fields, "sig", List([])));
      if stations.None? then Failed
      else
        Strike(StrikeTime(Get(fields, "time", Int(0)), Get(fields, "delay", Int(0)), env.clock, env.wholeSeconds),
               Polarity(Get(fields, "pol", Int(0))),
               env.show(Get(fields, "region", Int(0))),
               stations.value)
    case _ => NonDict(Truncate(env.show(data), NonDictLimit))
  }

  /** The fallback order of `handle_message`: a successful JSON parse is used
      whatever it is, even a false-y value; otherwise the decoder's result is
      used only when it is truthy; otherwise the raw text is shown. */
  function Choose(direct: Option<Json>, decoded: Option<Json>): (r: Route)
    ensures direct.Some? ==> r == Direct(direct.value)
    ensures direct.None? && decoded.Some? && Truthy(decoded.value) ==> r == Decoded(decoded.value)
    ensures r == Undecodable <==> direct.None? && (decoded.None? || !Truthy(decoded.value))
  {
    match direct
    case Some(d) => Direct(d)
    case None => if decoded.Some? && Truthy(decoded.value) then Decoded(decoded.value) else Undecodable
  }

  /** What the client prints for `message`: the summary of a successful
      parse, else the summary of a truthy decoded value, else the raw text. */
  function Outcome(env: Env, message: string): (rep: Report)
    ensures env.loads(message).Some? ==> rep == Summarize(env, env.loads(message).value)
    ensures env.loads(message).None? && Decode(env.loads, message).Some? && Truthy(Decode(env.loads, message).value)
            ==> rep == Summarize(env, Decode(env.loads, message).value)
  {
    match Choose(env.loads(message), Decode(env.loads, message))
    case Direct(d) => Summarize(env, d)
    case Decoded(d) => Summarize(env, d)
    case Undecodable => Raw(Truncate(message, RawLimit))
  }

  /** `handle_message`: the decoder runs only after the JSON parse has failed. */
  method HandleMessage(env: Env, message: string) returns (rep: Report)
    ensures rep == Outcome(env, message)
    ensures rep.Raw? ==> rep.shown == Truncate(message, RawLimit)
  {
    var direct := env.loads(message);
    if direct.Some? {
      rep := Summarize(env, direct.value);
    } else {
      var decoded := DecodeBlitzortungData(env.loads, message);
      if decoded.Some? && Truthy(decoded.value) {
        rep := Summarize(env, decoded.value);
      } else {
        rep := Raw(Truncate(message, RawLimit));
      }
    }
  }

  /** The raw text is printed exactly when neither the JSON parse nor the
      decoder yields something usable, and then it is the message cut at
      100 characters. */
  lemma RawExactlyWhenUndecodable(env: Env, message: string)
    ensures Outcome(env, message).Raw? <==>
      env.loads(message).None? && !(Decode(env.loads, message).Some? && Truthy(Decode(env.loads, message).value))
    ensures Outcome(env, message).Raw? ==> Outcome(env, message).shown == Truncate(message, RawLimit)
  {
  }

  /** An empty message that is not JSON is printed raw: the decoder fails on
      it before the dictionary is even set up. */
  lemma EmptyMessageIsRaw(env: Env)
    requires env.loads([]).None?
    ensures Outcome(env, []) == Raw([])
  {
  }

  /** A message made only of characters below 256 decodes to itself, so when
      it is not JSON the decoder cannot rescue it either and it is printed
      raw. */
  lemma LiteralMessageNotRescued(env: Env, message: string)
    requires env.loads(message).None?
    requires forall j | 0 <= j < |message| :: message[j] as int < DictBase
    ensures Outcome(env, message) == Raw(Truncate(message, RawLimit))
  {
  }

  /** A compressed frame of a JSON text is summarised as that text's value:
      when the frame itself is not JSON and the text parses to a truthy
      value, the decoder recovers the text and the client summarises what it
      parses to. */
  lemma CompressedRecordSummarised(env: Env, text: string, data: Json)
    requires text != [] && DictBase + |text| <= Encoder.SurrogateStart
    requires forall j | 0 <= j < |text| :: text[j] as int < DictBase
    requires env.loads(text) == Some(data) && Truthy(data)
    requires env.loads(Encoder.Encode(text)).None?
    ensures Outcome(env, Encoder.Encode(text)) == Summarize(env, data)
  {
    Encoder.RoundTrip(text, env.loads);
  }

  /** A record with none of the fields prints the placeholder time, polarity
      `-`, region 0 and no stations. */
  lemma EmptyRecordDefaults(env: Env)
    ensures Summarize(env, Dict(map[])) == Strike(PlaceholderText, '-', env.show(Int(0)), 0)
  {
  }
}
