/** Which classes may share a track. */
module ClassMatch {
  import opened Text

  datatype Mode = Strict | VehicleGroup | Any

  const FOUR_WHEELS: set<int> := {2, 5, 7}
  const TWO_WHEELS: set<int> := {1, 3}

  function NormalizeMode(text: string): Mode {
    var m := Key(text);
    if m == "strict" then Strict
    else if m == "any" then Any
    else VehicleGroup
  }

  /** Each mode is chosen by its name in any case and padding, and every other text means vehicle_group. */
  lemma ModeOfText(pre: string, text: string, post: string)
    requires AllBlank(pre) && AllBlank(post) && Trimmed(text)
    ensures
      var m := NormalizeMode(pre + text + post);
      && (m == Strict <==> Spells(text, "strict"))
      && (m == Any <==> Spells(text, "any"))
      && (m == VehicleGroup <==> !Spells(text, "strict") && !Spells(text, "any"))
  {
    StripPadded(pre, text, post);
    LowerSpells(text, "strict");
    LowerSpells(text, "any");
    assert "strict" != "any" by {
      assert |"strict"| != |"any"|;
    }
    hide Spells, Lower, Strip;
  }

  function CanonicalClass(cls: int, mode: Mode): int {
    if mode == Any then -1
    else if mode == VehicleGroup && cls in FOUR_WHEELS then -100
    else if mode == VehicleGroup && cls in TWO_WHEELS then -101
    else cls
  }

  /** What a mode promises its user about two classes. */
  predicate Interchangeable(c: int, d: int, mode: Mode) {
    || c == d
    || mode == Any
    // Car, bus, truck; bicycle, motorcycle.
    || (mode == VehicleGroup && (({c, d} <= {2, 5, 7}) || ({c, d} <= {1, 3})))
  }

  /** Canonical keys compare as the mode promises: the sentinels clash with no real class id. */
  lemma CanonicalClassIsExact(c: int, d: int, mode: Mode)
    requires c >= 0 && d >= 0
    ensures CanonicalClass(c, mode) == CanonicalClass(d, mode) <==> Interchangeable(c, d, mode)
  {
  }
}
