/**
 * Parsing of the value string of a `retro_variable` the core declares with
 * `SET_VARIABLES`: `"<description>; <value>|<value>|..."`. The description is the text
 * before the first `;`, the allowed values are the second `;`-separated component split
 * on `|`, each with surrounding whitespace removed; later components are ignored.
 */
module OptionParsing {

  /** `components(separatedBy:)` on a single-character separator: never empty. */
  function Split(s: string, sep: char): (parts: seq<string>)
    ensures |parts| >= 1
    decreases |s|
  {
    if |s| == 0 then [""]
    else if s[0] == sep then [""] + Split(s[1..], sep)
    else
      var rest := Split(s[1..], sep);
      [[s[0]] + rest[0]] + rest[1..]
  }

  /** No part of a split holds the separator. */
  lemma {:induction false} SplitPartsClean(s: string, sep: char)
    ensures forall i | 0 <= i < |Split(s, sep)| :: sep !in Split(s, sep)[i]
    decreases |s|
  {
    if |s| > 0 {
      SplitPartsClean(s[1..], sep);
      var rest := Split(s[1..], sep);
      if s[0] != sep {
        var parts := Split(s, sep);
        forall i | 0 <= i < |parts|
          ensures sep !in parts[i]
        {
          if i > 0 {
            assert parts[i] == rest[i];
          } else {
            assert parts[0] == [s[0]] + rest[0];
          }
        }
      }
    }
  }

  /** The parts put back together with the separator between them. */
  function Join(parts: seq<string>, sep: char): (s: string)
    requires |parts| >= 1
    decreases |parts|
  {
    if |parts| == 1 then parts[0] else parts[0] + [sep] + Join(parts[1..], sep)
  }

  /** Splitting loses nothing: joining the parts gives the string back. */
  lemma {:induction false} JoinSplit(s: string, sep: char)
    ensures Join(Split(s, sep), sep) == s
    decreases |s|
  {
    if |s| > 0 {
      JoinSplit(s[1..], sep);
      var rest := Split(s[1..], sep);
      if s[0] == sep {
        assert Split(s, sep)[1..] == rest;
      } else if |rest| == 1 {
        assert s == [s[0]] + s[1..];
      } else {
        assert Split(s, sep)[1..] == rest[1..];
        assert Join(rest, sep) == rest[0] + [sep] + Join(rest[1..], sep);
        assert s == [s[0]] + s[1..];
      }
    }
  }

  /** Joining parts free of the separator and splitting again gives the parts back. */
  lemma {:induction false} SplitJoin(parts: seq<string>, sep: char)
    requires |parts| >= 1 && forall i | 0 <= i < |parts| :: sep !in parts[i]
    ensures Split(Join(parts, sep), sep) == parts
    decreases |parts|, |parts[0]|
  {
    var p := parts[0];
    if |p| > 0 {
      var shorter := [p[1..]] + parts[1..];
      assert p == [p[0]] + p[1..];
      SplitJoin(shorter, sep);
      JoinCons(p[0], shorter, sep);
      assert Join(parts, sep) == [p[0]] + Join(shorter, sep);
    } else if |parts| > 1 {
      SplitJoin(parts[1..], sep);
      assert Join(parts, sep) == [sep] + Join(parts[1..], sep);
      assert ([sep] + Join(parts[1..], sep))[1..] == Join(parts[1..], sep);
    }
  }

  /** Prepending a character to the first part prepends it to the joined string. */
  lemma JoinCons(c: char, parts: seq<string>, sep: char)
    requires |parts| >= 1
    ensures Join([[c] + parts[0]] + parts[1..], sep) == [c] + Join(parts, sep)
  {
    var q := [[c] + parts[0]] + parts[1..];
    assert q[1..] == parts[1..];
  }

  /** The characters in `CharacterSet.whitespacesAndNewlines`: Unicode separators plus the ASCII controls 9-13 and U+0085. */
  predicate IsSpace(c: char) {
    || ('\U{9}' <= c <= '\U{D}') || c == ' ' || c == '\U{85}' || c == '\U{A0}' || c == '\U{1680}'
    || ('\U{2000}' <= c <= '\U{200A}') || c == '\U{2028}' || c == '\U{2029}' || c == '\U{202F}'
    || c == '\U{205F}' || c == '\U{3000}'
  }

  predicate AllSpace(s: string) {
    forall i | 0 <= i < |s| :: IsSpace(s[i])
  }

  /** A whitespace character followed by `k - 1` more is `k` of them. */
  lemma AllSpaceCons(s: string, k: nat)
    requires 1 <= k <= |s| && IsSpace(s[0]) && AllSpace(s[1..][..k - 1])
    ensures AllSpace(s[..k])
  {
    forall i | 1 <= i < k
      ensures IsSpace(s[..k][i])
    {
      assert s[..k][i] == s[1..][..k - 1][i - 1];
    }
  }

  /** `k` characters of whitespace from `k` on, then one more at the end, are all whitespace. */
  lemma AllSpaceSnoc(s: string, k: nat)
    requires k < |s| && IsSpace(s[|s| - 1]) && AllSpace(s[..|s| - 1][k..])
    ensures AllSpace(s[k..])
  {
    forall i | 0 <= i < |s| - 1 - k
      ensures IsSpace(s[k..][i])
    {
      assert s[k..][i] == s[..|s| - 1][k..][i];
    }
  }

  /** Drops leading whitespace. */
  function TrimStart(s: string): (t: string)
    ensures |t| <= |s| && t == s[|s| - |t|..]
    ensures AllSpace(s[..|s| - |t|])
    ensures t == [] || !IsSpace(t[0])
    decreases |s|
  {
    if |s| > 0 && IsSpace(s[0]) then
      var t := TrimStart(s[1..]);
      AllSpaceCons(s, |s| - |t|);
      assert s[1..][|s| - 1 - |t|..] == s[|s| - |t|..];
      t
    else s
  }

  /** Drops trailing whitespace. */
  function TrimEnd(s: string): (t: string)
    ensures |t| <= |s| && t == s[..|t|]
    ensures AllSpace(s[|t|..])
    ensures t == [] || !IsSpace(t[|t| - 1])
    decreases |s|
  {
    if |s| > 0 && IsSpace(s[|s| - 1]) then
      var t := TrimEnd(s[..|s| - 1]);
      AllSpaceSnoc(s, |t|);
      assert s[..|s| - 1][..|t|] == s[..|t|];
      t
    else s
  }

  /**
   * `trimmingCharacters(in: .whitespacesAndNewlines)`: the piece of `s` that is left once
   * the whitespace before it and after it is removed.
   */
  function Trim(s: string): (t: string)
    ensures |t| <= |TrimEnd(s)| && t == s[|TrimEnd(s)| - |t|..|TrimEnd(s)|]
    ensures AllSpace(s[..|TrimEnd(s)| - |t|]) && AllSpace(s[|TrimEnd(s)|..])
    ensures t == [] || (!IsSpace(t[0]) && !IsSpace(t[|t| - 1]))
  {
    var u := TrimEnd(s);
    var t := TrimStart(u);
    assert s[..|u| - |t|] == u[..|u| - |t|];
    assert t == s[|u| - |t|..|u|];
    t
  }

  /** Trimming twice is trimming once. */
  lemma TrimIdempotent(s: string)
    ensures Trim(Trim(s)) == Trim(s)
  {
    TrimKeeps(Trim(s));
  }

  /** A string with no whitespace at either end is left as it is. */
  lemma TrimKeeps(s: string)
    requires s == [] || (!IsSpace(s[0]) && !IsSpace(s[|s| - 1]))
    ensures Trim(s) == s
  {
    if s != [] {
      assert TrimEnd(s) == s;
      assert TrimStart(s) == s;
    }
  }

  function TrimAll(parts: seq<string>): (r: seq<string>)
    ensures |r| == |parts| && forall i | 0 <= i < |parts| :: r[i] == Trim(parts[i])
  {
    seq(|parts|, i requires 0 <= i < |parts| => Trim(parts[i]))
  }

  /** The value string declares a description and a value list: it has a second `;`-separated component. */
  predicate Declares(value: string) {
    |Split(value, ';')| >= 2
  }

  /** A string splits into two or more parts exactly when it holds the separator. */
  lemma {:induction false} SplitCount(s: string, sep: char)
    ensures sep in s <==> |Split(s, sep)| >= 2
    decreases |s|
  {
    if |s| > 0 {
      SplitCount(s[1..], sep);
      assert s == [s[0]] + s[1..];
    }
  }

  /**
   * The description and allowed values read from a `SET_VARIABLES` value string. The
   * source indexes the second component unchecked, so a value without `;` is a trap.
   */
  function ParseVariableValue(value: string): (r: (string, seq<string>))
    requires Declares(value)
    ensures |r.1| >= 1
  {
    var components := Split(value, ';');
    (components[0], TrimAll(Split(components[1], '|')))
  }

  /**
   * A value string declares exactly when it holds a `;`; the description then holds no
   * `;`, and every value is free of both separators and of surrounding whitespace.
   */
  lemma ParseClean(value: string)
    ensures Declares(value) <==> ';' in value
    ensures Declares(value) ==> var r := ParseVariableValue(value);
      ';' !in r.0 && forall v | v in r.1 :: '|' !in v && ';' !in v && Trim(v) == v
  {
    SplitCount(value, ';');
    if Declares(value) {
      SplitPartsClean(value, ';');
      ValuesClean(Split(value, ';')[1]);
    }
  }

  /** The trimmed `|`-separated pieces of a string without `;` hold no separator and no surrounding whitespace. */
  lemma ValuesClean(list: string)
    requires ';' !in list
    ensures forall v | v in TrimAll(Split(list, '|')) :: '|' !in v && ';' !in v && Trim(v) == v
  {
    var pieces := Split(list, '|');
    SplitPartsClean(list, '|');
    JoinSplit(list, '|');
    PartsOfJoin(pieces, '|', ';');
    forall i | 0 <= i < |pieces|
      ensures '|' !in Trim(pieces[i]) && ';' !in Trim(pieces[i]) && Trim(Trim(pieces[i])) == Trim(pieces[i])
    {
      TrimIdempotent(pieces[i]);
      SliceNotIn(pieces[i], ';', Trim(pieces[i]));
      SliceNotIn(pieces[i], '|', Trim(pieces[i]));
    }
  }

  /** Every part of a joined string lacks the characters the joined string lacks. */
  lemma {:induction false} PartsOfJoin(parts: seq<string>, sep: char, c: char)
    requires |parts| >= 1 && c !in Join(parts, sep)
    ensures forall i | 0 <= i < |parts| :: c !in parts[i]
    decreases |parts|
  {
    if |parts| > 1 {
      PartsOfJoin(parts[1..], sep, c);
      forall i | 1 <= i < |parts|
        ensures c !in parts[i]
      {
        assert parts[i] == parts[1..][i - 1];
      }
    }
  }

  /** A piece of a string lacks every character the string lacks. */
  lemma SliceNotIn(s: string, c: char, t: string)
    requires c !in s && t == Trim(s)
    ensures c !in t
  {
    var i := |TrimEnd(s)| - |t|;
    forall k | 0 <= k < |t|
      ensures t[k] != c
    {
      assert t[k] == s[i + k];
    }
  }

  /**
   * Parsing a value string written as `description;v1|...|vn` (optionally followed by
   * `;` and anything) gives back the description and the values, provided they hold no
   * separators and carry no surrounding whitespace.
   */
  lemma ParseFormatted(description: string, values: seq<string>, rest: seq<string>)
    requires ';' !in description && |values| >= 1
    requires forall i | 0 <= i < |values| :: ';' !in values[i] && '|' !in values[i]
    requires forall i | 0 <= i < |values| :: values[i] == [] || (!IsSpace(values[i][0]) && !IsSpace(values[i][|values[i]| - 1]))
    requires forall i | 0 <= i < |rest| :: ';' !in rest[i]
    ensures Declares(Join([description, Join(values, '|')] + rest, ';'))
    ensures ParseVariableValue(Join([description, Join(values, '|')] + rest, ';')) == (description, values)
  {
    var list := Join(values, '|');
    NoSepInJoin(values, '|', ';');
    var components := [description, list] + rest;
    assert forall i | 0 <= i < |components| :: ';' !in components[i];
    SplitJoin(components, ';');
    SplitJoin(values, '|');
    forall i | 0 <= i < |values|
      ensures Trim(values[i]) == values[i]
    {
      TrimKeeps(values[i]);
    }
    assert TrimAll(Split(list, '|')) == values;
  }

  /** Joining parts that lack a character with a separator other than it gives a string lacking it. */
  lemma {:induction false} NoSepInJoin(parts: seq<string>, sep: char, c: char)
    requires |parts| >= 1 && sep != c && forall i | 0 <= i < |parts| :: c !in parts[i]
    ensures c !in Join(parts, sep)
    decreases |parts|
  {
    if |parts| > 1 {
      NoSepInJoin(parts[1..], sep, c);
    }
  }
}
