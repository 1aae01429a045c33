/** The rotation configuration and the sequence cursor of app.js: which status
    entry and which availability value a tick with a given `sequenceIndex`
    picks (lines 69-72), and when a successful tick clears the console
    (line 86). Positions are computed with JavaScript's `%`, so an empty list
    or a zero interval yields `NaN` rather than a crash at this point. */
module Cursor {
  import opened Options
  import opened Json
  import opened JsNumber

  /** One entry of `sequences`: its `text` and `emoji` members, each
      `Undefined` when the configuration leaves it out. */
  datatype StatusEntry = StatusEntry(text: Value, emoji: Value)

  /** The parsed `config.json`, read once and never changed. The timer period
      `speed_rotator` is not part of it: timing is outside the model. */
  datatype Config = Config(
    sequences: seq<StatusEntry>,
    useStatusSequence: bool,
    statusSequence: seq<Value>,
    clearEnabled: bool,
    clearInterval: int)

  /** `config.sequences[sequenceIndex % config.sequences.length]`: `None` is the
      `undefined` read when the list is empty (the index is `NaN`). */
  function CurrentEntry(cfg: Config, index: nat): (r: Option<StatusEntry>)
    ensures r.Some? <==> |cfg.sequences| > 0
    ensures r.Some? ==> r.value in cfg.sequences
  {
    match Remainder(index, |cfg.sequences|)
    case None => None
    case Some(k) => Some(cfg.sequences[k])
  }

  /** The availability value passed as `newStatus`: `null` when cycling is off,
      otherwise `config.status_sequence[sequenceIndex % length]`, which is
      `undefined` when that list is empty. */
  function CurrentAvailability(cfg: Config, index: nat): (v: Value)
    ensures !cfg.useStatusSequence ==> v == Null
    ensures cfg.useStatusSequence && |cfg.statusSequence| == 0 ==> v == Undefined
    ensures cfg.useStatusSequence && |cfg.statusSequence| > 0 ==> v in cfg.statusSequence
  {
    if !cfg.useStatusSequence then Null
    else match Remainder(index, |cfg.statusSequence|)
      case None => Undefined
      case Some(k) => cfg.statusSequence[k]
  }

  /** `config.clear_enabled && sequenceIndex % config.clear_interval === 0`,
      evaluated on the already incremented index. */
  predicate ClearDue(cfg: Config, count: nat) {
    cfg.clearEnabled && Remainder(count, cfg.clearInterval) == Some(0)
  }

  /** With a non-empty list, the chosen entry is the one at the index modulo
      the list's length. */
  lemma CurrentEntryPosition(cfg: Config, index: nat)
    requires |cfg.sequences| > 0
    ensures CurrentEntry(cfg, index) == Some(cfg.sequences[index % |cfg.sequences|])
  {
    RemainderOfNatural(index, |cfg.sequences|);
  }

  /** With cycling on and a non-empty list, the availability value is the one
      at the index modulo that list's own length, independent of the status
      list's length. */
  lemma CurrentAvailabilityPosition(cfg: Config, index: nat)
    requires cfg.useStatusSequence && |cfg.statusSequence| > 0
    ensures CurrentAvailability(cfg, index) == cfg.statusSequence[index % |cfg.statusSequence|]
  {
    RemainderOfNatural(index, |cfg.statusSequence|);
  }

  /** The entry choice repeats with the length of the list. */
  lemma CurrentEntryPeriodic(cfg: Config, index: nat)
    ensures CurrentEntry(cfg, index + |cfg.sequences|) == CurrentEntry(cfg, index)
  {
    var n := |cfg.sequences|;
    if n > 0 {
      CurrentEntryPosition(cfg, index);
      CurrentEntryPosition(cfg, index + n);
      ModShift(index, n);
    }
  }

  /** The availability choice repeats with the length of its own list. */
  lemma CurrentAvailabilityPeriodic(cfg: Config, index: nat)
    ensures CurrentAvailability(cfg, index + |cfg.statusSequence|) == CurrentAvailability(cfg, index)
  {
    var n := |cfg.statusSequence|;
    if cfg.useStatusSequence && n > 0 {
      CurrentAvailabilityPosition(cfg, index);
      CurrentAvailabilityPosition(cfg, index + n);
      ModShift(index, n);
    }
  }

  /** Any run of `|sequences|` consecutive indices picks every entry of the
      list: the rotation never skips an entry. */
  lemma EveryEntryChosen(cfg: Config, start: nat, j: nat)
    requires j < |cfg.sequences|
    ensures exists k :: start <= k < start + |cfg.sequences| && CurrentEntry(cfg, k) == Some(cfg.sequences[j])
  {
    var n := |cfg.sequences|;
    var d := (j - start) % n;
    var q := (j - start) / n;
    assert j - start == n * q + d;
    var k := start + d;
    assert k == n * -q + j;
    ModUnique(k, n, -q, j);
    CurrentEntryPosition(cfg, k);
  }

  /** The clear rule in arithmetic terms: clearing is enabled, the interval is
      not zero, and the count is a multiple of the interval's magnitude. */
  lemma ClearDueMultiple(cfg: Config, count: nat)
    ensures ClearDue(cfg, count) <==>
      cfg.clearEnabled && cfg.clearInterval != 0 && count % Abs(cfg.clearInterval) == 0
  {
    if cfg.clearInterval != 0 {
      RemainderOfNatural(count, cfg.clearInterval);
    }
  }
}
