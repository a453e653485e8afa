/**
 * The "Up-to-date Mods" field of the report: a code block listing at most
 * three up-to-date mods and how many more there are.
 */
module Summary {
  import opened ModDb
  import opened Text

  /** Each mod's label followed by a line break, in order. */
  function LabelLines(ms: seq<Mod>): string
  {
    if ms == [] then "" else LabelLines(ms[..|ms| - 1]) + Label(ms[|ms| - 1]) + "\n"
  }

  /** The text after the listed mods: `"and {n - 3} more..."` for more than three. */
  function MoreTail(n: nat): string
  {
    if n > 3 then "and " + NatToString(n - 3) + " more..." else ""
  }

  function Min(a: nat, b: nat): nat
  {
    if a < b then a else b
  }

  /** The field's value: backtick, the first `min(n, 3)` labels, the tail, backtick. */
  function UpToDateField(ms: seq<Mod>): string
  {
    "`" + LabelLines(ms[..Min(|ms|, 3)]) + MoreTail(|ms|) + "`"
  }

  /**
   * The loop that builds the field: append each label and a line break;
   * after the third, if there are more than three, append the tail and stop.
   */
  method BuildUpToDateField(updatedMods: seq<Mod>) returns (s: string)
    ensures s == UpToDateField(updatedMods)
  {
    var added := 0;
    s := "`";
    var i := 0;
    while i < |updatedMods|
      invariant 0 <= i <= |updatedMods| && added == i
      invariant |updatedMods| > 3 ==> i < 3
      invariant s == "`" + LabelLines(updatedMods[..i])
    {
      LabelLinesStep(updatedMods, i);
      s := s + Label(updatedMods[i]) + "\n";
      added := added + 1;
      i := i + 1;
      if added < 3 || |updatedMods| <= 3 {
        continue;
      }
      s := s + ("and " + NatToString(|updatedMods| - 3) + " more...");
      FieldWithTail(updatedMods, s);
      break;
    }
    if i == |updatedMods| {
      FieldWithoutTail(updatedMods, s);
    }
    s := s + "`";
  }

  lemma LabelLinesStep(ms: seq<Mod>, i: nat)
    requires i < |ms|
    ensures LabelLines(ms[..i + 1]) == LabelLines(ms[..i]) + Label(ms[i]) + "\n"
  {
    assert ms[..i + 1][..i] == ms[..i];
  }

  lemma FieldWithTail(ms: seq<Mod>, s: string)
    requires |ms| > 3 && s == "`" + LabelLines(ms[..3]) + ("and " + NatToString(|ms| - 3) + " more...")
    ensures s + "`" == UpToDateField(ms)
  {
    assert Min(|ms|, 3) == 3;
    assert MoreTail(|ms|) == "and " + NatToString(|ms| - 3) + " more...";
  }

  lemma FieldWithoutTail(ms: seq<Mod>, s: string)
    requires |ms| <= 3 && s == "`" + LabelLines(ms[..|ms|])
    ensures s + "`" == UpToDateField(ms)
  {
  }

  lemma {:induction false} LabelLinesEnd(ms: seq<Mod>)
    requires ms != []
    ensures var t := LabelLines(ms); |t| > 0 && t[|t| - 1] == '\n'
  {
  }

  /**
   * The field starts and ends with a backtick; its body ends with the tail
   * ("... more...", so with '.') exactly when there are more than three mods,
   * and otherwise is empty or ends with the last listed mod's line break.
   */
  lemma UpToDateFieldShape(ms: seq<Mod>)
    ensures var f := UpToDateField(ms);
      && |f| >= 2 && f[0] == '`' && f[|f| - 1] == '`'
      && (|ms| > 3 <==> f[|f| - 2] == '.')
      && (|ms| > 3 ==> f[..|f| - 1] == "`" + LabelLines(ms[..3]) + "and " + NatToString(|ms| - 3) + " more...")
      && (0 < |ms| <= 3 ==> f[|f| - 2] == '\n')
      && (|ms| == 0 ==> f == "``")
  {
    if |ms| > 3 {
      ShapeWithTail(ms);
    } else if |ms| > 0 {
      ShapeWithoutTail(ms);
    } else {
      assert ms[..0] == [];
    }
  }

  lemma ShapeWithTail(ms: seq<Mod>)
    requires |ms| > 3
    ensures var f := UpToDateField(ms);
      && |f| >= 2 && f[0] == '`' && f[|f| - 1] == '`' && f[|f| - 2] == '.'
      && f[..|f| - 1] == "`" + LabelLines(ms[..3]) + "and " + NatToString(|ms| - 3) + " more..."
  {
    var head := "`" + LabelLines(ms[..3]);
    var tail := MoreTail(|ms|);
    assert tail == "and " + NatToString(|ms| - 3) + " more...";
    var x := head + tail;
    assert x == "`" + LabelLines(ms[..3]) + "and " + NatToString(|ms| - 3) + " more...";
    assert UpToDateField(ms) == x + "`" by {
      assert Min(|ms|, 3) == 3;
    }
    LastOf(head, tail);
    Closed(x);
  }

  lemma LastOf(a: string, b: string)
    requires |b| > 0
    ensures (a + b)[|a + b| - 1] == b[|b| - 1]
  {
  }

  lemma ShapeWithoutTail(ms: seq<Mod>)
    requires 0 < |ms| <= 3
    ensures var f := UpToDateField(ms);
      && |f| >= 2 && f[0] == '`' && f[|f| - 1] == '`' && f[|f| - 2] == '\n'
  {
    var x := "`" + LabelLines(ms[..|ms|]);
    assert UpToDateField(ms) == x + "`";
    LabelLinesEnd(ms[..|ms|]);
    Closed(x);
  }

  /** Closing a non-empty text with a backtick keeps the text before it. */
  lemma Closed(x: string)
    requires |x| > 0
    ensures var f := x + "`";
      |f| == |x| + 1 && f[..|x|] == x && f[|x| - 1] == x[|x| - 1] && f[|x|] == '`' && f[0] == x[0]
  {
  }
}
