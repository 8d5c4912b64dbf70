/**
 * The speed control's dropdown: seven options, of which exactly one carries the `active`
 * class, a label showing the chosen speed, and a shown/hidden flag.
 */
module SpeedMenu {
  /** The playback rates offered, in list order. */
  const Speeds: seq<real> := [0.5, 0.75, 1.0, 1.25, 1.5, 2.0, 4.0]

  /** `speed + 'x'` for each entry of `Speeds`, as JavaScript prints those numbers. */
  const Labels: seq<string> := ["0.5x", "0.75x", "1x", "1.25x", "1.5x", "2x", "4x"]

  /** The option active when a control is created: the one whose speed is `1`. */
  const DefaultOption: nat := 2

  /** Option `i` is the active one and no other is. */
  predicate OnlyActive(flags: seq<bool>, i: nat) {
    i < |flags| && forall j :: 0 <= j < |flags| ==> (flags[j] <==> j == i)
  }

  /** How many options carry the `active` class. */
  function CountActive(flags: seq<bool>): nat {
    if |flags| == 0 then 0 else (if flags[0] then 1 else 0) + CountActive(flags[1..])
  }

  lemma {:induction false} NoneActive(flags: seq<bool>)
    requires forall j :: 0 <= j < |flags| ==> !flags[j]
    ensures CountActive(flags) == 0
  {
    if |flags| > 0 {
      NoneActive(flags[1..]);
    }
  }

  /** When one option is the active one, exactly one option is active. */
  lemma {:induction false} OnlyActiveIsExactlyOne(flags: seq<bool>, i: nat)
    requires OnlyActive(flags, i)
    ensures CountActive(flags) == 1
  {
    if i == 0 {
      NoneActive(flags[1..]);
    } else {
      OnlyActiveIsExactlyOne(flags[1..], i - 1);
    }
  }

  /** The dropdown state of one speed control. */
  class Dropdown {
    /** Whether each option element carries the `active` class, in list order. */
    const options: array<bool>
    /** The text of the `livebarn-speed-display` span. */
    var display: string
    /** `dropdown.style.display === 'block'`. */
    var visible: bool
    /** The index of the active option. */
    ghost var selected: nat

    ghost predicate Valid()
      reads this, options
    {
      options.Length == |Speeds| && OnlyActive(options[..], selected) && display == Labels[selected]
    }

    /** A fresh control: the `1` option is active, the label reads "1x", the list is hidden. */
    constructor ()
      ensures Valid() && fresh(options) && CountActive(options[..]) == 1
      ensures selected == DefaultOption && Speeds[selected] == 1.0 && display == "1x" && !visible
    {
      var flags := new bool[|Speeds|];
      for i := 0 to flags.Length
        invariant forall j :: 0 <= j < i ==> flags[j] == (Speeds[j] == 1.0)
      {
        flags[i] := Speeds[i] == 1.0;
      }
      options := flags;
      display := "1x";
      visible := false;
      selected := DefaultOption;
      OnlyActiveIsExactlyOne(flags[..], DefaultOption);
    }

    /**
     * The DOM part of an option's click handler: show the option's label, clear `active` on
     * every option, set it on the chosen one, hide the list.
     */
    method Choose(i: nat)
      requires Valid() && i < |Speeds|
      modifies this, options
      ensures Valid() && selected == i && display == Labels[i] && !visible
      ensures CountActive(options[..]) == 1
    {
      display := Labels[i];
      for j := 0 to options.Length
        invariant display == Labels[i]
        invariant forall m :: 0 <= m < j ==> !options[m]
      {
        options[j] := false;
      }
      options[i] := true;
      selected := i;
      visible := false;
      OnlyActiveIsExactlyOne(options[..], i);
    }

    /** A click on the speed control flips the list between shown and hidden. */
    method Toggle()
      modifies this`visible
      ensures visible == !old(visible)
    {
      visible := !visible;
    }

    /** A click anywhere else in the document hides the list. */
    method Close()
      modifies this`visible
      ensures !visible
    {
      visible := false;
    }
  }
}
