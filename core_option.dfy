/**
 * Core options (`ArcadiaCoreOption`) and the C `retro_variable` record handed to the core.
 * An option is either a declaration the core made (key, description, allowed values) or a
 * record of a value the frontend writes back (key and selected value, with a
 * `retro_variable` built from C copies of both strings).
 */
module CoreOptions {
  import opened Common

  /** A NUL-terminated C string: where `strdup` put it, and its text. */
  datatype CString = CString(address: nat, text: string)

  /** `struct retro_variable { const char *key; const char *value; }`. */
  datatype RetroVariable = RetroVariable(key: CString, value: CString)

  /** The `Equatable` conformance of `retro_variable`: it compares the two pointers, not the text behind them. */
  predicate SameVariable(a: RetroVariable, b: RetroVariable) {
    a.key.address == b.key.address && a.value.address == b.value.address
  }

  datatype CoreOption = CoreOption(
    key: string,
    description: Option<string>,
    values: Option<seq<string>>,
    selectedValue: Option<string>,
    retroVariable: Option<RetroVariable>)

  /** An option built by the write initialiser, the only kind that carries a `retro_variable`. */
  predicate IsWriteRecord(o: CoreOption) {
    o.retroVariable.Some?
  }

  /** The initialiser for an option the core declares. */
  function Declaration(key: string, description: string, values: seq<string>): (o: CoreOption)
    ensures !IsWriteRecord(o) && o.selectedValue.None?
    ensures o.key == key && o.description == Some(description) && o.values == Some(values)
  {
    CoreOption(key, Some(description), Some(values), None, None)
  }

  /**
   * The initialiser for a value the frontend sets. `keyCopy` and `valueCopy` are where the
   * two `strdup` calls placed their copies.
   */
  function WriteRecord(key: string, selectedValue: string, keyCopy: nat, valueCopy: nat): (o: CoreOption)
    ensures IsWriteRecord(o) && o.description.None? && o.values.None?
    ensures o.key == key && o.selectedValue == Some(selectedValue)
  {
    CoreOption(key, None, None, Some(selectedValue), Some(RetroVariable(CString(keyCopy, key), CString(valueCopy, selectedValue))))
  }

  /** `getRetroVariable()` force-unwraps the variable, so it is defined only on write records. */
  function GetRetroVariable(o: CoreOption): (v: RetroVariable)
    requires IsWriteRecord(o)
    ensures Some(v) == o.retroVariable
  {
    o.retroVariable.value
  }

  /** The variable of a write record holds C copies of the option's key and selected value. */
  lemma WriteRecordVariable(key: string, selectedValue: string, keyCopy: nat, valueCopy: nat)
    ensures var v := GetRetroVariable(WriteRecord(key, selectedValue, keyCopy, valueCopy));
      v.key.text == key && v.value.text == selectedValue &&
      v.key.address == keyCopy && v.value.address == valueCopy
  {
  }

  /** Pointer equality is an equivalence. */
  lemma SameVariableEquivalence(a: RetroVariable, b: RetroVariable, c: RetroVariable)
    ensures SameVariable(a, a)
    ensures SameVariable(a, b) ==> SameVariable(b, a)
    ensures SameVariable(a, b) && SameVariable(b, c) ==> SameVariable(a, c)
  {
  }

  /**
   * Two write records of the same key and value whose strings were copied to different
   * places have variables that do not compare equal.
   */
  lemma SeparateCopiesDiffer(key: string, value: string, k1: nat, v1: nat, k2: nat, v2: nat)
    requires k1 != k2 || v1 != v2
    ensures !SameVariable(GetRetroVariable(WriteRecord(key, value, k1, v1)), GetRetroVariable(WriteRecord(key, value, k2, v2)))
  {
  }
}
