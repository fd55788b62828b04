/// The translation table from Resonite ProtoFlux node names to the symbols
/// NeosVR showed for the same nodes, and the label rewrite it drives.
module Translation {
  import opened NetStrings

  /// The node-name to symbol table (41 entries), grouped as in the source:
  /// arithmetic, comparison, logic, value conversion, bit operations,
  /// control and delta-time nodes. Non-ASCII glyphs are written as escapes:
  /// U+00D7 multiplication sign, U+00F7 division sign, U+2264/U+2265 less-
  /// and greater-or-equal, U+2248 almost-equal, U+00B2/U+00B3 superscript
  /// two and three, U+207B U+00B9 superscript minus one, U+00B7 middle dot,
  /// U+00B0 degree sign.
  const ResoniteToNeosMap: map<string, string> := map[
    "Add" := "+",
    "AddMulti" := "+",
    "Sub" := "-",
    "SubMulti" := "-",
    "Mul" := "\U{00D7}",
    "MulMulti" := "\U{00D7}",
    "Div" := "\U{00F7}",
    "ValueMod" := "%",

    "Equals" := "==",
    "NotEquals" := "!=",
    "LessThan" := "<",
    "LessOrEqual" := "\U{2264}",
    "GreaterThan" := ">",
    "GreaterOrEqual" := "\U{2265}",
    "Approximately" := "\U{2248}",
    "ApproximatelyNot" := "!\U{2248}",

    "AND" := "&",
    "OR" := "|",
    "OR_Multi" := "|",
    "XOR" := "^",
    "NOT" := "!",

    "ValueSquare" := "x\U{00B2}",
    "ValueCube" := "x\U{00B3}",
    "ValueReciprocal" := "1/x",
    "Inverse" := "A\U{207B}\U{00B9}",
    "ValueNegate" := "-n",
    "ValueOneMinus" := "1-x",
    "ValuePlusMinus" := "+/-",
    "Magnitude" := "|V|",
    "SqrMagnitude" := "|V|\U{00B2}",
    "Dot" := "\U{00B7}",
    "Angle" := "\U{00B0}",
    "ValueInc" := "+1",
    "ValueDec" := "-1",

    "ShiftLeft" := "<<",
    "ShiftRight" := ">>",
    "RotateLeft" := "ROL",
    "RotateRight" := "ROR",

    "Conditional" := "?:",

    "MulDeltaTime" := "\U{00D7}dT",
    "DivDeltaTime" := "\U{00F7}dT"
  ]

  /// What the rewrite needs of a table for its output never to be rewritten
  /// again: no key is empty and no key contains an opening parenthesis.
  ghost predicate WellFormed(table: map<string, string>)
  {
    forall k :: k in table ==> k != "" && '(' !in k
  }

  /// The rewrite of one non-null label: a node name found in the table
  /// becomes `symbol(name)`; anything else is left as it is.
  function Enhance(table: map<string, string>, name: string): (r: string)
    ensures name !in table ==> r == name
    ensures name in table ==> |r| > |name| + 1
  {
    if name in table then table[name] + "(" + name + ")" else name
  }

  /// The layout of a label made from a table key: the symbol, then `(`, the
  /// name and `)`, and nothing else.
  lemma EnhanceLayout(table: map<string, string>, name: string)
    requires name in table
    ensures var r := Enhance(table, name); var sym := table[name];
      |r| == |sym| + |name| + 2 && r[..|sym|] == sym && r[|sym|] == '('
      && r[|sym| + 1 .. |r| - 1] == name && r[|r| - 1] == ')'
  {
  }

  /// The rewrite of a string reference: null and empty strings pass
  /// through, every other string is rewritten by `Enhance`.
  function EnhanceText(table: map<string, string>, v: NullableString): (r: NullableString)
    ensures IsNullOrEmpty(v) ==> r == v
    ensures !IsNullOrEmpty(v) ==> !IsNullOrEmpty(r) && (r != v <==> v.s in table)
  {
    if IsNullOrEmpty(v) then v else Str(Enhance(table, v.s))
  }

  /// The keys of the table, in the source's groups: numeric and comparison
  /// nodes, logic and value-conversion nodes, bit, control and delta-time
  /// nodes.
  ghost const NumericAndComparisonNames: set<string> :=
    {"Add", "AddMulti", "Sub", "SubMulti", "Mul", "MulMulti", "Div", "ValueMod",
     "Equals", "NotEquals", "LessThan", "LessOrEqual", "GreaterThan", "GreaterOrEqual",
     "Approximately", "ApproximatelyNot"}
  ghost const LogicAndConversionNames: set<string> :=
    {"AND", "OR", "OR_Multi", "XOR", "NOT", "ValueSquare", "ValueCube", "ValueReciprocal",
     "Inverse", "ValueNegate", "ValueOneMinus", "ValuePlusMinus", "Magnitude",
     "SqrMagnitude", "Dot", "Angle", "ValueInc", "ValueDec"}
  ghost const BitControlAndTimeNames: set<string> :=
    {"ShiftLeft", "ShiftRight", "RotateLeft", "RotateRight", "Conditional",
     "MulDeltaTime", "DivDeltaTime"}

  /// The table shipped with the mod is well formed. The keys are checked
  /// group by group, which keeps each proof obligation small.
  lemma ResoniteToNeosWellFormed()
    ensures WellFormed(ResoniteToNeosMap)
  {
    NumericAndComparisonKeys();
    LogicAndConversionKeys();
    BitControlAndTimeKeys();
    KeysInGroups();
  }

  /// Helper: every key of the table is in one of the three groups.
  lemma KeysInGroups()
    ensures forall k :: k in ResoniteToNeosMap ==>
      k in NumericAndComparisonNames || k in LogicAndConversionNames || k in BitControlAndTimeNames
  {
  }

  /// Helper for `ResoniteToNeosWellFormed`.
  lemma NumericAndComparisonKeys()
    ensures forall k :: k in NumericAndComparisonNames ==> k != "" && '(' !in k
  {
  }

  /// Helper for `ResoniteToNeosWellFormed`.
  lemma LogicAndConversionKeys()
    ensures forall k :: k in LogicAndConversionNames ==> k != "" && '(' !in k
  {
  }

  /// Helper for `ResoniteToNeosWellFormed`.
  lemma BitControlAndTimeKeys()
    ensures forall k :: k in BitControlAndTimeNames ==> k != "" && '(' !in k
  {
  }

  /// Every rewritten label carries the parenthesis inserted around the name.
  lemma {:induction false} EnhanceHitHasParen(table: map<string, string>, name: string)
    requires name in table
    ensures '(' in Enhance(table, name)
    ensures Enhance(table, name) != name || '(' in name
  {
    var r := Enhance(table, name);
    assert r[|table[name]|] == '(';
  }

  /// Feeding a rewritten label back in leaves it unchanged: the second pass
  /// always falls into the identity branch.
  lemma {:induction false} EnhanceIdempotent(table: map<string, string>, name: string)
    requires WellFormed(table)
    ensures Enhance(table, Enhance(table, name)) == Enhance(table, name)
  {
    if name in table {
      EnhanceHitHasParen(table, name);
    }
  }

  /// The same, lifted to string references.
  lemma {:induction false} EnhanceTextIdempotent(table: map<string, string>, v: NullableString)
    requires WellFormed(table)
    ensures EnhanceText(table, EnhanceText(table, v)) == EnhanceText(table, v)
  {
    if !IsNullOrEmpty(v) {
      EnhanceIdempotent(table, v.s);
    }
  }

  /// Recovers the node name from a label made by a hit: the text between the
  /// last `(` and the closing `)`. Returns the text itself otherwise.
  function NameOf(shown: string): string
  {
    if |shown| >= 2 && shown[|shown| - 1] == ')' then
      var paren := LastOpenParen(shown[..|shown| - 1]);
      if paren < |shown| - 1 then shown[paren + 1 .. |shown| - 1] else shown
    else shown
  }

  /// The index of the last `(` in `s`, or `|s|` when there is none.
  function LastOpenParen(s: string): (i: nat)
    ensures i <= |s|
    ensures i < |s| ==> s[i] == '(' && '(' !in s[i + 1..]
    ensures i == |s| ==> '(' !in s
  {
    if s == [] then 0
    else if s[|s| - 1] == '(' then |s| - 1
    else
      var j := LastOpenParen(s[..|s| - 1]);
      if j == |s| - 1 then |s|
      else (assert s[j + 1..] == s[..|s| - 1][j + 1..] + [s[|s| - 1]]; j)
  }

  /// A label made from a table key gives the key back: distinct node names
  /// are displayed as distinct labels.
  lemma {:induction false} NameOfEnhance(table: map<string, string>, name: string)
    requires WellFormed(table)
    requires name in table
    ensures NameOf(Enhance(table, name)) == name
  {
    var sym := table[name];
    var r := Enhance(table, name);
    var body := r[..|r| - 1];
    assert body == sym + "(" + name;
    var paren := LastOpenParen(body);
    assert body[|sym|] == '(';
    if paren < |sym| {
      assert false;
    } else if paren > |sym| {
      assert false;
    }
    assert r[paren + 1 .. |r| - 1] == name;
  }

  /// Consequence of `NameOfEnhance`: the rewrite is injective on table keys.
  lemma EnhanceInjective(table: map<string, string>, a: string, b: string)
    requires WellFormed(table)
    requires a in table && b in table
    requires Enhance(table, a) == Enhance(table, b)
    ensures a == b
  {
    NameOfEnhance(table, a);
    NameOfEnhance(table, b);
  }

  /// Concrete rewrites of the shipped table: node names found in it.
  lemma HitFixtures()
    ensures Enhance(ResoniteToNeosMap, "Add") == "+(Add)"
    ensures Enhance(ResoniteToNeosMap, "Equals") == "==(Equals)"
    ensures Enhance(ResoniteToNeosMap, "ShiftLeft") == "<<(ShiftLeft)"
  {
    assert ResoniteToNeosMap["Add"] == "+";
    assert "+" + "(" + "Add" + ")" == "+(Add)";
    assert ResoniteToNeosMap["Equals"] == "==";
    assert "==" + "(" + "Equals" + ")" == "==(Equals)";
    assert ResoniteToNeosMap["ShiftLeft"] == "<<";
    assert "<<" + "(" + "ShiftLeft" + ")" == "<<(ShiftLeft)";
  }

  /// Concrete rewrites of the shipped table: labels left as they are.
  lemma MissFixtures()
    ensures Enhance(ResoniteToNeosMap, "+(Add)") == "+(Add)"
    ensures Enhance(ResoniteToNeosMap, "Unmapped") == "Unmapped"
    ensures EnhanceText(ResoniteToNeosMap, Str("")) == Str("")
    ensures EnhanceText(ResoniteToNeosMap, Null) == Null
  {
    ResoniteToNeosWellFormed();
    assert "+(Add)"[1] == '(';
    KeysInGroups();
    assert "Unmapped" !in NumericAndComparisonNames;
    assert "Unmapped" !in LogicAndConversionNames;
    assert "Unmapped" !in BitControlAndTimeNames;
  }
}
