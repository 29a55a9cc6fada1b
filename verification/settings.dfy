/** OIDC and SMTP settings: a stored row with the environment on top. */
module Settings {
  import opened Options
  import opened Strings

  /** `Json` is the stored text of a JSON array of strings. */
  datatype Value =
    Flag(on: bool) | Number(n: int) | Text(text: string) | List(items: seq<string>) | Json(items: seq<string>)

  type Fields = map<string, Value>

  // ---- The environment ----

  /** `env_overrides`: the supplied settings of one connector, without their prefix. */
  function EnvOverrides(supplied: Fields, prefix: string): (overrides: Fields)
    ensures forall key :: key in overrides <==> prefix + key in supplied
    ensures forall key | key in overrides :: overrides[key] == supplied[prefix + key]
  {
    assert forall name | name in supplied && prefix <= name :: prefix + name[|prefix|..] == name;
    assert forall key: string :: (prefix + key)[|prefix|..] == key;
    map name | name in supplied && prefix <= name :: name[|prefix|..] := supplied[name]
  }

  const LIST_FIELDS: set<string> := {"alert_actions", "alert_resources", "alert_statuses"}

  /** The environment gives the alert filters as comma-separated text, the row holds JSON. */
  function NormalizeOverride(field: string, value: Value): Value {
    if field in LIST_FIELDS && value.Text? then Json(StripNonBlank(Split(value.text, ','))) else value
  }

  lemma {:induction false} StripNonBlankKeeps(items: seq<string>)
    requires forall item | item in items :: IsTrimmed(item)
    ensures StripNonBlank(items) == items
  {
    if items != [] {
      StripTrimmed("", items[0]);
      assert "" + items[0] == items[0];
      StripNonBlankKeeps(items[1..]);
      assert items == [items[0]] + items[1..];
    }
  }

  /** A list that the environment gives joined with commas is the list a form would store. */
  lemma {:induction false} ListOverrideRoundTrip(field: string, items: seq<string>)
    requires field in LIST_FIELDS && forall item | item in items :: IsTrimmed(item) && ',' !in item
    ensures NormalizeOverride(field, Text(Join(items, ","))) == Json(items)
    ensures EncodeLists(map[field := List(items)]) == map[field := Json(items)]
  {
    if items == [] {
      SplitWithoutSeparator("", ',');
      assert Strip("") == "" && StripNonBlank([""][1..]) == [];
    } else {
      SplitJoin(items, ',');
      StripNonBlankKeeps(items);
    }
  }

  function NormalizeOverrides(overrides: Fields): (normalized: Fields)
    ensures normalized.Keys == overrides.Keys
  {
    map field | field in overrides :: NormalizeOverride(field, overrides[field])
  }

  function EncodeValue(field: string, value: Value): Value {
    if field in LIST_FIELDS && value.List? then Json(value.items) else value
  }

  /** Submitted lists become JSON. */
  function EncodeLists(data: Fields): (encoded: Fields)
    ensures encoded.Keys == data.Keys
  {
    map field | field in data :: EncodeValue(field, data[field])
  }

  // ---- Reading and writing ----

  /** The row, or a fresh one. */
  function RowOr(row: Option<Fields>, defaults: Fields): Fields {
    if row.Some? then row.value else defaults
  }

  function Merged(row: Option<Fields>, defaults: Fields, overrides: Fields): Option<Fields> {
    if row.None? && overrides == map[] then None else Some(RowOr(row, defaults) + overrides)
  }

  function Stored(row: Option<Fields>, defaults: Fields, locked: set<string>, data: Fields): Fields {
    RowOr(row, defaults) + (data - locked)
  }

  /** What copying one more of the fields still `todo` gives. */
  lemma {:induction false} OverlayOne(target: Fields, source: Fields, locked: set<string>, todo: set<string>,
                                      field: string)
    requires field in source && field in todo
    ensures var merged := target + (source - (locked + todo));
            (if field in locked then merged else merged[field := source[field]])
            == target + (source - (locked + (todo - {field})))
  {
    if field in locked {
      assert locked + todo == locked + (todo - {field});
    }
  }

  lemma {:induction false} OverlayEnds(target: Fields, source: Fields, locked: set<string>)
    ensures target + (source - (locked + source.Keys)) == target
    ensures target + (source - (locked + {})) == target + (source - locked)
  {
    assert locked + {} == locked;
  }

  /** A settings table that holds at most one row. */
  class Connector {
    const defaults: Fields
    var row: Option<Fields>

    constructor (defaults: Fields)
      ensures this.defaults == defaults && row == None
    {
      this.defaults := defaults;
      row := None;
    }

    /** Copy `source` over `target` field by field, except the locked ones. */
    static method Overlay(target: Fields, source: Fields, locked: set<string>) returns (merged: Fields)
      ensures merged == target + (source - locked)
    {
      merged := target;
      var todo := source.Keys;
      OverlayEnds(target, source, locked);
      while todo != {}
        invariant todo <= source.Keys
        invariant merged == target + (source - (locked + todo))
        decreases |todo|
      {
        var field :| field in todo;
        OverlayOne(target, source, locked, todo, field);
        if field !in locked {
          merged := merged[field := source[field]];
        }
        todo := todo - {field};
      }
    }

    /** The settings in force: overrides are applied to a copy and never stored. */
    method Get(overrides: Fields) returns (settings: Option<Fields>)
      ensures settings == Merged(row, defaults, overrides)
    {
      if row.None? && overrides == map[] {
        return None;
      }
      var merged := Overlay(if row.Some? then row.value else defaults, overrides, {});
      assert overrides - {} == overrides;
      return Some(merged);
    }

    /** Store a form, except the fields the environment pins. */
    method Upsert(data: Fields, overrides: Fields) returns (settings: Option<Fields>)
      modifies this
      ensures row == Some(Stored(old(row), defaults, overrides.Keys, data))
      ensures settings == Merged(row, defaults, overrides)
    {
      var updated := Overlay(if row.Some? then row.value else defaults, data, overrides.Keys);
      row := Some(updated);
      settings := Get(overrides);
    }
  }

  function GetSmtpSettings(row: Option<Fields>, defaults: Fields, env: Fields): Option<Fields> {
    Merged(row, defaults, NormalizeOverrides(env))
  }

  function UpsertSmtpSettings(row: Option<Fields>, defaults: Fields, env: Fields, data: Fields): Fields {
    Stored(row, defaults, env.Keys, EncodeLists(data))
  }

  /** The transient configuration of a submitted form. */
  function BuildSmtpConfig(data: Fields, defaults: Fields, env: Fields): Fields {
    defaults + EncodeLists(data) + NormalizeOverrides(env)
  }

  /** Only submitted lists of the three alert filters, and only their pinned text, are rewritten. */
  lemma {:induction false} OtherValuesAreVerbatim(data: Fields, field: string)
    requires field in data
    ensures field !in {"alert_actions", "alert_resources", "alert_statuses"} ==>
              EncodeLists(data)[field] == data[field] && NormalizeOverrides(data)[field] == data[field]
    ensures !data[field].List? ==> EncodeLists(data)[field] == data[field]
    ensures !data[field].Text? ==> NormalizeOverrides(data)[field] == data[field]
  {
  }

  /** There are settings unless there is neither a row nor a pinned field. */
  lemma {:induction false} NoSettingsIff(row: Option<Fields>, defaults: Fields, env: Fields)
    ensures Merged(row, defaults, env).None? <==> row.None? && env == map[]
    ensures GetSmtpSettings(row, defaults, env).None? <==> row.None? && env == map[]
  {
    assert env == map[] <==> env.Keys == {};
    assert NormalizeOverrides(env) == map[] <==> NormalizeOverrides(env).Keys == {};
  }

  // ---- Overrides never leak ----

  /** A restart with another environment, or a form submitted under the present one. */
  datatype Event = Restart(env: Fields) | Submit(data: Fields)

  function EnvAfter(env: Fields, events: seq<Event>): Fields {
    if events == [] then env
    else if events[|events| - 1].Restart? then events[|events| - 1].env
    else EnvAfter(env, events[..|events| - 1])
  }

  function RowAfter(row: Option<Fields>, defaults: Fields, env: Fields, events: seq<Event>): Option<Fields> {
    if events == [] then row
    else
      var n := |events| - 1;
      var before := RowAfter(row, defaults, env, events[..n]);
      if events[n].Restart? then before
      else Some(Stored(before, defaults, EnvAfter(env, events[..n]).Keys, events[n].data))
  }

  /** The last value submitted for a field while it was not pinned. */
  function LastUnpinned(env: Fields, events: seq<Event>, field: string): Option<Value> {
    if events == [] then None
    else
      var n := |events| - 1;
      if events[n].Submit? && field in events[n].data && field !in EnvAfter(env, events[..n])
      then Some(events[n].data[field])
      else LastUnpinned(env, events[..n], field)
  }

  lemma {:induction false} StoredIsLastUnpinned(row: Option<Fields>, defaults: Fields, env: Fields,
                                                events: seq<Event>, field: string)
    requires field in RowOr(row, defaults)
    ensures var last := LastUnpinned(env, events, field);
            var stored := RowOr(RowAfter(row, defaults, env, events), defaults);
            && field in stored
            && stored[field] == if last.Some? then last.value else RowOr(row, defaults)[field]
  {
    if events != [] {
      StoredIsLastUnpinned(row, defaults, env, events[..|events| - 1], field);
    }
  }

  /**
   * After any run of restarts and forms, reading a field gives its pinned value while it is pinned, and otherwise
   * the last value submitted while it was not pinned, or else the initial one: no pinned value is ever stored.
   */
  lemma {:induction false} OverridesNeverLeak(row: Option<Fields>, defaults: Fields, env: Fields, events: seq<Event>,
                                              field: string)
    requires field in RowOr(row, defaults)
    ensures var pinned := EnvAfter(env, events);
            var last := LastUnpinned(env, events, field);
            var settings := RowOr(Merged(RowAfter(row, defaults, env, events), defaults, pinned), defaults);
            && field in settings
            && settings[field]
               == if field in pinned then pinned[field]
                  else if last.Some? then last.value
                  else RowOr(row, defaults)[field]
  {
    StoredIsLastUnpinned(row, defaults, env, events, field);
  }

  /** The SMTP row: forms are encoded before they are stored. */
  function SmtpRowAfter(row: Option<Fields>, defaults: Fields, env: Fields, events: seq<Event>): Option<Fields> {
    if events == [] then row
    else
      var n := |events| - 1;
      var before := SmtpRowAfter(row, defaults, env, events[..n]);
      if events[n].Restart? then before
      else Some(UpsertSmtpSettings(before, defaults, EnvAfter(env, events[..n]), events[n].data))
  }

  lemma {:induction false} SmtpStoredIsLastUnpinned(row: Option<Fields>, defaults: Fields, env: Fields,
                                                    events: seq<Event>, field: string)
    requires field in RowOr(row, defaults)
    ensures var last := LastUnpinned(env, events, field);
            var stored := RowOr(SmtpRowAfter(row, defaults, env, events), defaults);
            && field in stored
            && stored[field] == if last.Some? then EncodeValue(field, last.value) else RowOr(row, defaults)[field]
  {
    if events != [] {
      SmtpStoredIsLastUnpinned(row, defaults, env, events[..|events| - 1], field);
    }
  }

  /** The same for the SMTP settings, whose lists are stored as JSON and pinned as comma-separated text. */
  lemma {:induction false} SmtpOverridesNeverLeak(row: Option<Fields>, defaults: Fields, env: Fields,
                                                  events: seq<Event>, field: string)
    requires field in RowOr(row, defaults)
    ensures var pinned := EnvAfter(env, events);
            var last := LastUnpinned(env, events, field);
            var stored := SmtpRowAfter(row, defaults, env, events);
            var settings := RowOr(GetSmtpSettings(stored, defaults, pinned), defaults);
            && field in settings
            && settings[field]
               == if field in pinned then NormalizeOverride(field, pinned[field])
                  else if last.Some? then EncodeValue(field, last.value)
                  else RowOr(row, defaults)[field]
  {
    SmtpStoredIsLastUnpinned(row, defaults, env, events, field);
  }

  // ---- Two code paths ----

  /** Fields on which the tested configuration could differ from the stored one. */
  ghost predicate UnsubmittedAreDefault(row: Option<Fields>, defaults: Fields, env: Fields, data: Fields)
    requires RowOr(row, defaults).Keys == defaults.Keys
  {
    forall field | field in defaults && field !in data && field !in env ::
      RowOr(row, defaults)[field] == defaults[field]
  }

  /**
   * The configuration built for a test is the one in force after saving the same form, exactly when the row holds
   * the default in every field that is neither submitted nor pinned.
   */
  lemma {:induction false} BuildMatchesUpsert(row: Option<Fields>, defaults: Fields, env: Fields, data: Fields)
    requires RowOr(row, defaults).Keys == defaults.Keys && data.Keys <= defaults.Keys
    ensures var saved := Some(UpsertSmtpSettings(row, defaults, env, data));
            GetSmtpSettings(saved, defaults, env) == Some(BuildSmtpConfig(data, defaults, env))
            <==> UnsubmittedAreDefault(row, defaults, env, data)
  {
    var pins, form := NormalizeOverrides(env), EncodeLists(data);
    var before := RowOr(row, defaults);
    var saved, built := before + (form - env.Keys) + pins, defaults + form + pins;
    assert saved.Keys == built.Keys;
    if UnsubmittedAreDefault(row, defaults, env, data) {
      forall field | field in built
        ensures saved[field] == built[field]
      {
      }
      assert saved == built;
    } else {
      var field :| field in defaults && field !in data && field !in env && before[field] != defaults[field];
      assert saved[field] != built[field];
    }
  }

  /** Forms are submitted whole, so testing them tests what saving them would give. */
  lemma {:induction false} FullFormIsTestedAsSaved(row: Option<Fields>, defaults: Fields, env: Fields, data: Fields)
    requires RowOr(row, defaults).Keys == defaults.Keys && data.Keys == defaults.Keys
    ensures GetSmtpSettings(Some(UpsertSmtpSettings(row, defaults, env, data)), defaults, env)
         == Some(BuildSmtpConfig(data, defaults, env))
  {
    BuildMatchesUpsert(row, defaults, env, data);
  }
}
