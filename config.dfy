/** The configuration record and `readConfig` (src/index.ts:68-94).

    Reading the file and the relaxed-JSON parser are outside the model: what
    they deliver is the `Source` a caller passes in. */
module PresenceConfig {
  import opened Wrappers

  /** The `Cfg` interface. Every optional field is `None` when the parsed
      document leaves it out or sets it to `null`. The field `type` is named
      `activityType` here, since `type` is a Dafny keyword. JavaScript numbers
      are modelled as integers. */
  datatype Cfg = Cfg(
    applicationId: string,
    activityType: Option<int>,
    name: string,
    details: Option<string>,
    state: Option<string>,
    largeImageKey: Option<string>,
    largeImageText: Option<string>,
    smallImageKey: Option<string>,
    smallImageText: Option<string>,
    refreshTime: Option<bool>,
    manualTime: Option<int>,
    manualDuration: Option<int>
  )

  /** What reading and parsing the configuration file produce: the read
      fails, the parser returns a nullish value (an empty document, or one
      holding only comments or `null`), or it returns a record. */
  datatype Source = Unreadable | NullishDocument | Document(parsed: Cfg)

  /** Why `readConfig` rejects: the file read failed, or the property access
      `parsed.refreshTime` threw because `parsed` was nullish. */
  datatype ReadError = FileError | NoDocument

  /** A record as `readConfig` returns it: `refreshTime` is always set. */
  predicate Normalized(c: Cfg) {
    c.refreshTime.Some?
  }

  /** The object spread of line 93: `refreshTime` defaults to `true` when it
      is nullish, and nothing else changes. */
  function Normalize(parsed: Cfg): (c: Cfg)
    ensures Normalized(c)
    ensures parsed.refreshTime.None? ==> c.refreshTime == Some(true)
    ensures parsed.refreshTime.Some? ==> c == parsed
    ensures c.(refreshTime := parsed.refreshTime) == parsed
  {
    match parsed.refreshTime
    case None => parsed.(refreshTime := Some(true))
    case Some(_) => parsed
  }

  /** `readConfig`: a record is normalised; the two other outcomes reject. */
  function ReadConfig(src: Source): (r: Result<Cfg, ReadError>)
    ensures r.Ok? <==> src.Document?
    ensures r.Ok? ==> Normalized(r.value) && r.value == Normalize(src.parsed)
    ensures src.Unreadable? ==> r == Err(FileError)
    ensures src.NullishDocument? ==> r == Err(NoDocument)
  {
    match src
    case Unreadable => Err(FileError)
    case NullishDocument => Err(NoDocument)
    case Document(parsed) => Ok(Normalize(parsed))
  }

  /** Normalising is idempotent, and a record is left unchanged exactly when
      it already carries a `refreshTime`. */
  lemma NormalizeFixesExactlyNormalized(parsed: Cfg)
    ensures Normalize(Normalize(parsed)) == Normalize(parsed)
    ensures Normalize(parsed) == parsed <==> Normalized(parsed)
  {
  }
}
