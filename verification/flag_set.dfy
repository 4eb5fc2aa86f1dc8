/**
  The logger's category filter (`FlagSet` in flag_set.go): a map from flag to
  an explicit enabled/disabled entry, plus the two bits `all` and `none`.
  The Go type is mutated in place; here every mutator is a pure
  function from the old value to the new one.
 */
module FlagSets {

  /** An event category tag, e.g. "error" or "info". */
  type Flag = string

  /** The reserved tags that switch the `all` and `none` bits when parsed. */
  const FlagAll: Flag := "all"
  const FlagNone: Flag := "none"

  /** A Go `FlagSet`. A nil `flags` map reads like an empty one, so both are `map[]` here. */
  datatype FlagSet = FlagSet(flags: map<Flag, bool>, all: bool, none: bool)

  /** The set with no entries and neither bit, as `&FlagSet{flags: map[Flag]bool{}}` builds it. */
  const Empty: FlagSet := FlagSet(map[], false, false)

  // ---------------------------------------------------------------------------
  // The query
  // ---------------------------------------------------------------------------

  /** True when `f` has an explicit `false` entry. */
  predicate ExplicitlyDisabled(fs: FlagSet, f: Flag)
  {
    f in fs.flags && !fs.flags[f]
  }

  /** True when `f` has an explicit `true` entry. */
  predicate ExplicitlyEnabled(fs: FlagSet, f: Flag)
  {
    f in fs.flags && fs.flags[f]
  }

  /** `IsEnabled`. The `all` bit is tested first: under it only an explicit
      `false` entry disables a flag, whatever `none` says. Without `all`, the
      `none` bit disables everything; without either bit the entry decides,
      and a missing entry means disabled. */
  predicate IsEnabled(fs: FlagSet, f: Flag)
  {
    if fs.all then
      !(f in fs.flags && !fs.flags[f])
    else if fs.none then
      false
    else if f in fs.flags then
      fs.flags[f]
    else
      false
  }

  /** What a flag set filters, in normal form: either everything except a
      finite set of flags, or exactly a finite set of flags. */
  datatype Policy = AllExcept(disabled: set<Flag>) | Only(enabled: set<Flag>)
  {
    predicate Admits(f: Flag)
    {
      match this
      case AllExcept(d) => f !in d
      case Only(e) => f in e
    }
  }

  /** The policy a flag set stands for, read off the bits and entries. */
  function PolicyOf(fs: FlagSet): Policy
  {
    if fs.all then AllExcept(set f | f in fs.flags && !fs.flags[f])
    else if fs.none then Only({})
    else Only(set f | f in fs.flags && fs.flags[f])
  }

  /** IsEnabled agrees with the normal form, flag by flag. */
  lemma IsEnabledMatchesPolicy(fs: FlagSet, f: Flag)
    ensures IsEnabled(fs, f) <==> PolicyOf(fs).Admits(f)
  {
  }

  /** Under `all`, a flag is enabled unless it has an explicit `false` entry,
      and this holds whether or not `none` is also set. */
  lemma AllBitResolution(fs: FlagSet, f: Flag)
    requires fs.all
    ensures IsEnabled(fs, f) <==> !ExplicitlyDisabled(fs, f)
  {
  }

  /** Without `all`: `none` disables every flag; otherwise only an explicit
      `true` entry enables one. */
  lemma NoAllBitResolution(fs: FlagSet, f: Flag)
    requires !fs.all
    ensures fs.none ==> !IsEnabled(fs, f)
    ensures !fs.none ==> (IsEnabled(fs, f) <==> ExplicitlyEnabled(fs, f))
  {
  }

  // ---------------------------------------------------------------------------
  // Mutators
  // ---------------------------------------------------------------------------

  /** `Enable`: records `f` as enabled and clears `none`; `all` and every
      other entry are kept. */
  function Enable(fs: FlagSet, f: Flag): (r: FlagSet)
    ensures r.all == fs.all && !r.none
    ensures ExplicitlyEnabled(r, f) && IsEnabled(r, f)
    ensures r.flags.Keys == fs.flags.Keys + {f}
    ensures forall g :: g in fs.flags && g != f ==> r.flags[g] == fs.flags[g]
  {
    FlagSet(fs.flags[f := true], fs.all, false)
  }

  /** `Disable`: records `f` as disabled; only `f`'s entry changes, so `f`
      becomes disabled and every other flag keeps its verdict, even under `all`. */
  function Disable(fs: FlagSet, f: Flag): (r: FlagSet)
    ensures r.all == fs.all && r.none == fs.none
    ensures ExplicitlyDisabled(r, f) && !IsEnabled(r, f)
    ensures r.flags.Keys == fs.flags.Keys + {f}
    ensures forall g :: g in fs.flags && g != f ==> r.flags[g] == fs.flags[g]
    ensures forall g :: g != f ==> (IsEnabled(r, g) <==> IsEnabled(fs, g))
  {
    FlagSet(fs.flags[f := false], fs.all, fs.none)
  }

  /** `SetAll`: sets `all`, clears `none`, keeps the entries; afterwards
      exactly the explicitly disabled flags are disabled. */
  function SetAll(fs: FlagSet): (r: FlagSet)
    ensures r.all && !r.none && r.flags == fs.flags
    ensures forall f :: IsEnabled(r, f) <==> !ExplicitlyDisabled(fs, f)
  {
    FlagSet(fs.flags, true, false)
  }

  /** `SetNone`: clears `all`, drops every entry, sets `none`; afterwards no
      flag is enabled, including the ones enabled before. */
  function SetNone(fs: FlagSet): (r: FlagSet)
    ensures !r.all && r.none && r.flags == map[]
    ensures forall f :: !IsEnabled(r, f)
  {
    FlagSet(map[], false, true)
  }

  /** `SetAll` followed by `Disable(x)`: `x` is off and every other flag is on. */
  lemma AllButOne(fs: FlagSet, x: Flag, y: Flag)
    requires y != x
    ensures !IsEnabled(Disable(SetAll(fs), x), x)
    ensures IsEnabled(Disable(SetAll(fs), x), y) <==> !ExplicitlyDisabled(fs, y)
  {
  }

  // ---------------------------------------------------------------------------
  // Constructors
  // ---------------------------------------------------------------------------

  /** Enables the given flags one after the other. */
  function EnableEach(fs: FlagSet, flags: seq<Flag>): (r: FlagSet)
    ensures r.all == fs.all
    ensures |flags| > 0 ==> !r.none
    ensures |flags| == 0 ==> r.none == fs.none
    ensures r.flags.Keys == fs.flags.Keys + set i | 0 <= i < |flags| :: flags[i]
    ensures forall i :: 0 <= i < |flags| ==> r.flags[flags[i]]
    ensures forall g :: g in fs.flags && g !in flags ==> r.flags[g] == fs.flags[g]
    decreases |flags|
  {
    if |flags| == 0 then fs
    else
      var r := EnableEach(Enable(fs, flags[0]), flags[1..]);
      assert forall i :: 0 < i < |flags| ==> flags[i] == flags[1..][i - 1];
      assert (set i | 0 <= i < |flags| :: flags[i])
          == {flags[0]} + set i | 0 <= i < |flags| - 1 :: flags[1..][i];
      r
  }

  /** `NewFlagSet(flags...)`: exactly the listed flags are enabled. */
  function NewFlagSet(flags: seq<Flag>): (r: FlagSet)
    ensures !r.all && !r.none
    ensures forall f :: IsEnabled(r, f) <==> f in flags
  {
    var r := EnableEach(Empty, flags);
    assert forall f :: f in r.flags ==> f in flags;
    r
  }

  /** `NewFlagSetAll`: every flag is enabled. */
  function NewFlagSetAll(): (r: FlagSet)
    ensures r.all && !r.none && r.flags == map[]
    ensures forall f :: IsEnabled(r, f)
  {
    FlagSet(map[], true, false)
  }

  /** `NewFlagSetNone`: no flag is enabled. */
  function NewFlagSetNone(): (r: FlagSet)
    ensures !r.all && r.none && r.flags == map[]
    ensures forall f :: !IsEnabled(r, f)
  {
    FlagSet(map[], false, true)
  }

  // ---------------------------------------------------------------------------
  // Merging
  // ---------------------------------------------------------------------------

  /** `CoalesceWith(other)`: every entry of `other` overwrites self's entry,
      self's other entries stay, and each bit can only be switched on. */
  function CoalesceWith(fs: FlagSet, other: FlagSet): (r: FlagSet)
    ensures r.all <==> fs.all || other.all
    ensures r.none <==> fs.none || other.none
    ensures r.flags.Keys == fs.flags.Keys + other.flags.Keys
    ensures forall k :: k in other.flags ==> r.flags[k] == other.flags[k]
    ensures forall k :: k in fs.flags && k !in other.flags ==> r.flags[k] == fs.flags[k]
  {
    FlagSet(fs.flags + other.flags, fs.all || other.all, fs.none || other.none)
  }

  /** The verdict of a merged set: on `other`'s keys `other`'s entry decides
      unless only `none` is set in the merge; elsewhere self's entry decides
      under the merged bits. When self has neither bit, the merge agrees with
      `other` on `other`'s keys. */
  lemma CoalesceVerdict(fs: FlagSet, other: FlagSet, f: Flag)
    ensures var m := CoalesceWith(fs, other);
      && (f in other.flags ==>
           (IsEnabled(m, f) <==> other.flags[f] && (m.all || !m.none)))
      && (f !in other.flags ==>
           (IsEnabled(m, f) <==> IsEnabled(FlagSet(fs.flags, m.all, m.none), f)))
      && (!fs.all && !fs.none && f in other.flags ==>
           (IsEnabled(m, f) <==> IsEnabled(other, f)))
  {
  }

  /** Merging with a set whose bits are both clear never changes a verdict
      outside `other`'s keys. */
  lemma CoalesceKeepsUntouchedVerdicts(fs: FlagSet, other: FlagSet, f: Flag)
    requires !other.all && !other.none
    requires f !in other.flags
    ensures IsEnabled(CoalesceWith(fs, other), f) <==> IsEnabled(fs, f)
  {
  }

  /** Right bias is not total. `other` can lose: a `none` already set in
      self overrides an entry that `other` enables, and an explicit `false`
      in self survives an `all` brought in by `other` that names no entry
      for that flag. Self can lose too on a flag `other` does not name: an
      `all` brought in by `other` enables a flag self had disabled by default. */
  lemma CoalesceBitsOverrideEntries()
    ensures var self := NewFlagSetNone();
            var other := NewFlagSet(["a"]);
            IsEnabled(other, "a") && !IsEnabled(CoalesceWith(self, other), "a")
    ensures var self := Disable(NewFlagSet([]), "x");
            var other := NewFlagSetAll();
            "x" !in other.flags && IsEnabled(other, "x") && !IsEnabled(CoalesceWith(self, other), "x")
    ensures var self := NewFlagSet([]);
            var other := NewFlagSetAll();
            "b" !in other.flags && !IsEnabled(self, "b") && IsEnabled(CoalesceWith(self, other), "b")
  {
  }

  /** Both bits can be set at once by merging, in either direction, and then
      `all` decides. */
  lemma CoalesceCanSetBothBits(f: Flag)
    ensures var m := CoalesceWith(NewFlagSetNone(), NewFlagSetAll());
            m.all && m.none && IsEnabled(m, f)
    ensures var m := CoalesceWith(NewFlagSetAll(), NewFlagSetNone());
            m.all && m.none && IsEnabled(m, f)
  {
  }
}
