/**
 * The `Config` table: string keys mapped to string values. Two keys are
 * used, `allow` (registration open) and `allow_edit` (editing open). A
 * flag is on when its row is missing or holds exactly "1".
 */
module Flags {

  type Config = map<string, string>

  const AllowKey: string := "allow"
  const AllowEditKey: string := "allow_edit"

  /**
   * `allow_register()` / `allow_edit()`: an absent key reads as on
   * (fail-open); a present key is on exactly when its value is "1".
   */
  function Flag(c: Config, key: string): (on: bool)
    ensures key !in c ==> on
    ensures key in c ==> (on <==> c[key] == "1")
  {
    if key in c then c[key] == "1" else true
  }

  /** The admin toggle's new value: "1" becomes "0", anything else "1". */
  function Flipped(v: string): (w: string)
    ensures w == "0" || w == "1"
    ensures (w == "1") <==> (v != "1")
  {
    if v == "1" then "0" else "1"
  }

  /** Flip the stored value of one existing key; the row must exist. */
  function Toggle(c: Config, key: string): (c': Config)
    requires key in c
    ensures c'.Keys == c.Keys
    ensures c'[key] == Flipped(c[key])
    ensures forall k :: k in c && k != key ==> c'[k] == c[k]
  {
    c[key := Flipped(c[key])]
  }

  /**
   * One admin POST: the `toggle` field flips `allow`, the `toggle_edit`
   * field flips `allow_edit`, each only when present in the request.
   */
  function ToggleRequest(c: Config, toggle: bool, toggleEdit: bool): (c': Config)
    requires AllowKey in c && AllowEditKey in c
    ensures c'.Keys == c.Keys
    ensures c'[AllowKey] == if toggle then Flipped(c[AllowKey]) else c[AllowKey]
    ensures c'[AllowEditKey] == if toggleEdit then Flipped(c[AllowEditKey]) else c[AllowEditKey]
    ensures forall k :: k in c && k != AllowKey && k != AllowEditKey ==> c'[k] == c[k]
  {
    var c1 := if toggle then Toggle(c, AllowKey) else c;
    if toggleEdit then Toggle(c1, AllowEditKey) else c1
  }

  /** Startup: every missing flag row is added with value "1"; present rows are kept. */
  function Initialized(c: Config): (c': Config)
    ensures AllowKey in c' && AllowEditKey in c'
    ensures c'.Keys == c.Keys + {AllowKey, AllowEditKey}
    ensures forall k :: k in c ==> c'[k] == c[k]
    ensures forall k :: k in c' && k !in c ==> c'[k] == "1"
  {
    var c1 := if AllowKey in c then c else c[AllowKey := "1"];
    if AllowEditKey in c1 then c1 else c1[AllowEditKey := "1"]
  }

  /** Toggling flips the flag it targets, whatever value the row held. */
  lemma ToggleFlipsFlag(c: Config, key: string)
    requires key in c
    ensures Flag(Toggle(c, key), key) == !Flag(c, key)
  {
  }

  /** Toggling twice gives back the same flag, and turns any value into "1" or "0". */
  lemma ToggleTwice(c: Config, key: string)
    requires key in c
    ensures Flag(Toggle(Toggle(c, key), key), key) == Flag(c, key)
    ensures Toggle(Toggle(c, key), key)[key] == (if c[key] == "1" then "1" else "0")
  {
  }

  /** Toggling twice restores the row exactly when it held "0" or "1". */
  lemma ToggleTwiceRestores(c: Config, key: string)
    requires key in c
    ensures Toggle(Toggle(c, key), key) == c <==> c[key] == "0" || c[key] == "1"
  {
    if Toggle(Toggle(c, key), key) == c {
      assert Toggle(Toggle(c, key), key)[key] == c[key];
    }
  }

  /** Each toggle field flips only its own flag; a request with both flips both. */
  lemma ToggleRequestFlips(c: Config, toggle: bool, toggleEdit: bool)
    requires AllowKey in c && AllowEditKey in c
    ensures ToggleRequest(c, toggle, toggleEdit).Keys == c.Keys
    ensures Flag(ToggleRequest(c, toggle, toggleEdit), AllowKey) == (Flag(c, AllowKey) != toggle)
    ensures Flag(ToggleRequest(c, toggle, toggleEdit), AllowEditKey) == (Flag(c, AllowEditKey) != toggleEdit)
    ensures forall k :: k in c && k != AllowKey && k != AllowEditKey ==> ToggleRequest(c, toggle, toggleEdit)[k] == c[k]
  {
    assert AllowKey != AllowEditKey;
  }

  /** Startup initialisation changes no flag's reading, since absent already reads as on. */
  lemma InitializedKeepsFlags(c: Config, key: string)
    ensures Flag(Initialized(c), key) == Flag(c, key)
  {
  }

  /** Running the startup block again changes nothing. */
  lemma InitializedIdempotent(c: Config)
    ensures Initialized(Initialized(c)) == Initialized(c)
  {
  }
}
