/**
 * The phone confirmation gate (`PhonePopup` in focus_frame.py): the `active`
 * flag and the test that the typed entry is the unlock phrase. The Tk window
 * that presents the entry field is outside the model.
 */
module Popup {
  import opened Strings

  /** The phrase the entry must equal after `strip().lower()`. */
  const UNLOCK_PHRASE: string := "im back at working"

  /** The test in `check_and_close` and `on_enter`. */
  predicate IsUnlockPhrase(entry: string) {
    Lower(Strip(entry)) == UNLOCK_PHRASE
  }

  /**
   * An entry unlocks exactly when it is the phrase, in any letter case,
   * surrounded by any amount of whitespace.
   */
  lemma {:induction false} UnlockPhraseIff(entry: string)
    ensures IsUnlockPhrase(entry) <==>
      exists i, j | 0 <= i <= j <= |entry| ::
        SpaceBefore(entry, i) && SpaceFrom(entry, j) && Lower(entry[i..j]) == UNLOCK_PHRASE
  {
    StripSpec(entry);
    if IsUnlockPhrase(entry) {
      var i := StripStart(entry);
      var j := i + |Strip(entry)|;
      assert Trimmed(entry, i, j);
    }
    if i, j :| 0 <= i <= j <= |entry| &&
               SpaceBefore(entry, i) && SpaceFrom(entry, j) && Lower(entry[i..j]) == UNLOCK_PHRASE {
      var w := entry[i..j];
      assert |w| == |UNLOCK_PHRASE|;
      assert Lower(w)[0] == 'i' && Lower(w)[|w| - 1] == 'g';
      assert LowerChar(w[0]) == 'i' && LowerChar(w[|w| - 1]) == 'g';
      assert !IsSpace(entry[i]) && !IsSpace(entry[j - 1]);
      assert Trimmed(entry, i, j);
      StripIsTheTrimmedSlice(entry, i, j);
    }
  }

  /** The prompt's own wording, "Im back at working", lower-cases to the phrase. */
  lemma LowerPromptWording()
    ensures Lower("Im back at working") == UNLOCK_PHRASE
  {
    LowerAppend("I", "m back at working");
    LowerAppend("m back", " at working");
    LowerOfLower("m back");
    LowerOfLower(" at working");
  }

  /** An entry whose trimmed middle lower-cases to the phrase unlocks. */
  lemma UnlocksWhenTrimmed(entry: string, i: int, j: int)
    requires 0 <= i < j <= |entry| && Trimmed(entry, i, j)
    requires Lower(entry[i..j]) == UNLOCK_PHRASE
    ensures IsUnlockPhrase(entry)
  {
    StripIsTheTrimmedSlice(entry, i, j);
  }

  /** The prompt's wording unlocks as typed. */
  lemma PromptWordingUnlocks()
    ensures IsUnlockPhrase("Im back at working")
  {
    var w := "Im back at working";
    LowerPromptWording();
    assert w[0..|w|] == w;
    assert Trimmed(w, 0, |w|);
    UnlocksWhenTrimmed(w, 0, |w|);
  }

  /** Surrounding whitespace, a trailing newline included, does not matter. */
  lemma PaddedPromptUnlocks()
    ensures IsUnlockPhrase("  Im back at working\n")
  {
    var w := "Im back at working";
    LowerPromptWording();
    var f := "  " + w + "\n";
    assert f == "  Im back at working\n";
    assert f[2..|f| - 1] == w;
    assert Trimmed(f, 2, |f| - 1);
    UnlocksWhenTrimmed(f, 2, |f| - 1);
  }

  /** A truncated phrase leaves the gate open. */
  lemma TruncatedPhraseKeepsLocked()
    ensures !IsUnlockPhrase("im back at work")
  {
    var g := "im back at work";
    assert Trimmed(g, 0, |g|);
    StripIsTheTrimmedSlice(g, 0, |g|);
    assert g[0..|g|] == g;
  }

  /** The gate: open while a phone confirmation is pending. */
  class PhonePopup {
    var active: bool

    constructor ()
      ensures !active
    {
      active := false;
    }

    /**
     * `show`: opens the gate; when it was already open nothing changes.
     * `launched` says whether a new confirmation window is started.
     */
    method Show() returns (launched: bool)
      modifies this
      ensures active
      ensures launched == !old(active)
    {
      if active {
        return false;
      }
      active := true;
      launched := true;
    }

    /** `check_and_close` on the text typed so far: only the unlock phrase closes the gate. */
    method Submit(entry: string) returns (closed: bool)
      modifies this
      ensures closed == IsUnlockPhrase(entry)
      ensures active == (old(active) && !IsUnlockPhrase(entry))
    {
      closed := IsUnlockPhrase(entry);
      if closed {
        active := false;
      }
    }
  }
}
