/**
 * The `negate` action of the transformation service: it flips a boolean cell and writes the
 * result in proper case (`True` / `False`). Proper casing is the small automaton `toProperCase`,
 * which lower-cases a text and upper-cases the first letter of every word.
 */
module Negate {
  import opened Results
  import opened Ascii

  /** The characters after which `toProperCase` starts a new word; they are copied as they are. */
  predicate IsDelimiter(c: char)
  {
    c == ' ' || c == '"' || c == '(' || c == '.' || c == '/' || c == '\\' || c == ','
  }

  /** Character `i` of `s` begins a word: it is the first one (when the text starts a word) or follows a delimiter. */
  predicate StartsWord(s: string, i: nat, preceded: bool)
    requires i < |s|
  {
    if i == 0 then preceded else IsDelimiter(s[i - 1])
  }

  /** What proper casing makes of character `i`: delimiters as they are, a word's first letter upper, the rest lower. */
  function ProperChar(s: string, i: nat, preceded: bool): char
    requires i < |s|
  {
    if IsDelimiter(s[i]) then s[i]
    else if StartsWord(s, i, preceded) then ToUpper(ToLower(s[i]))
    else ToLower(s[i])
  }

  /** Case changes never turn a character into a delimiter or a delimiter into something else. */
  lemma CaseKeepsDelimiters(c: char)
    ensures IsDelimiter(ToLower(c)) <==> IsDelimiter(c)
    ensures IsDelimiter(ToUpper(c)) <==> IsDelimiter(c)
  {
  }

  /**
   * The reading loop of `toProperCase` over the lower-cased text, as a recursion on the rest of the input:
   * `preceded` is the flag saying the previous character was a delimiter (true at the start).
   */
  function ProperCaseFrom(s: string, preceded: bool): (r: string)
    ensures |r| == |s|
    ensures forall i :: 0 <= i < |s| ==> r[i] == ProperChar(s, i, preceded)
    decreases |s|
  {
    if s == [] then []
    else
      var c := ToLower(s[0]);
      CaseKeepsDelimiters(s[0]);
      var rest := ProperCaseFrom(s[1..], IsDelimiter(c));
      var r := [if IsDelimiter(c) || !preceded then c else ToUpper(c)] + rest;
      assert forall i :: 1 <= i < |s| ==> r[i] == rest[i - 1] && s[1..][i - 1] == s[i];
      assert forall i :: 1 <= i < |s| ==> StartsWord(s[1..], i - 1, IsDelimiter(c)) == StartsWord(s, i, preceded);
      r
  }

  /** `toProperCase`: same length, delimiters copied, the first letter of each word upper-cased, all others lower-cased. */
  function ProperCase(s: string): (r: string)
    ensures |r| == |s|
    ensures forall i :: 0 <= i < |s| && IsDelimiter(s[i]) ==> r[i] == s[i]
    ensures forall i :: 0 <= i < |s| && !IsDelimiter(s[i]) && StartsWord(s, i, true) ==> r[i] == ToUpper(ToLower(s[i]))
    ensures forall i :: 0 <= i < |s| && !IsDelimiter(s[i]) && !StartsWord(s, i, true) ==> r[i] == ToLower(s[i])
  {
    ProperCaseFrom(s, true)
  }

  lemma ProperCharCase(c: char)
    ensures ToLower(ToUpper(ToLower(c))) == ToLower(c)
    ensures ToLower(ToLower(c)) == ToLower(c)
  {
  }

  /** Proper casing a properly cased text changes nothing. */
  lemma {:induction false} ProperCaseIdempotent(s: string)
    ensures ProperCase(ProperCase(s)) == ProperCase(s)
  {
    var t := ProperCase(s);
    var u := ProperCase(t);
    forall i | 0 <= i < |s|
      ensures u[i] == t[i]
    {
      CaseKeepsDelimiters(s[i]);
      CaseKeepsDelimiters(ToLower(s[i]));
      ProperCharCase(s[i]);
      if i > 0 {
        CaseKeepsDelimiters(s[i - 1]);
        CaseKeepsDelimiters(ToLower(s[i - 1]));
        assert IsDelimiter(t[i - 1]) <==> IsDelimiter(s[i - 1]);
      }
    }
  }

  /** A word without delimiters is proper-cased to its first letter upper-cased and the rest lower-cased. */
  lemma ProperCaseWord(s: string)
    requires s != [] && forall i :: 0 <= i < |s| ==> !IsDelimiter(s[i])
    ensures ProperCase(s) == [ToUpper(ToLower(s[0]))] + LowerString(s[1..])
  {
    var r := ProperCase(s);
    var w := [ToUpper(ToLower(s[0]))] + LowerString(s[1..]);
    assert forall i :: 0 <= i < |s| ==> r[i] == w[i];
  }

  /** The two texts the action writes. */
  lemma ProperCaseBooleans()
    ensures ProperCase("true") == "True" && ProperCase("false") == "False"
  {
    ProperCaseWord("true");
    ProperCaseWord("false");
    assert "true"[1..] == "rue" && "false"[1..] == "alse";
    assert LowerString("rue") == "rue";
    assert LowerString("alse") == "alse";
  }

  /** `Boolean(String)`: true exactly for `true` in any case, with no trimming. */
  predicate ParseBoolean(v: string)
  {
    EqualsIgnoreCase(v, "true")
  }

  /** `"" + b`: a boolean as Java writes it in a string. */
  function BooleanText(b: bool): string
  {
    if b then "true" else "false"
  }

  /** The guard of the row function: the trimmed value spells `true` or `false` in any case. */
  predicate LooksBoolean(v: string)
  {
    EqualsIgnoreCase(Trim(v), "true") || EqualsIgnoreCase(Trim(v), "false")
  }

  /**
   * What the action writes for a cell value: nothing unless the trimmed value is a boolean word, else
   * the proper-cased negation of the value parsed without trimming.
   */
  function NegateValue(v: string): (r: Option<string>)
    ensures r.Some? <==> LooksBoolean(v)
    ensures r.Some? ==> r.value == "True" || r.value == "False"
    ensures r.Some? ==> (r.value == "False" <==> ParseBoolean(v))
  {
    if LooksBoolean(v) then
      var text := BooleanText(!ParseBoolean(v));
      ProperCaseBooleans();
      Some(ProperCase(text))
    else None
  }

  /** A text that neither starts nor ends with a trimmable character is its own trim. */
  lemma TrimPlain(s: string)
    requires s != [] && !IsTrimmable(s[0]) && !IsTrimmable(s[|s| - 1])
    ensures Trim(s) == s
  {
  }

  /** `equalsIgnoreCase("true")`, character by character. */
  lemma IgnoreCaseTrue(v: string)
    ensures EqualsIgnoreCase(v, "true") <==>
              |v| == 4 && ToLower(v[0]) == 't' && ToLower(v[1]) == 'r' && ToLower(v[2]) == 'u' && ToLower(v[3]) == 'e'
  {
    var t := LowerString("true");
    assert t == [t[0], t[1], t[2], t[3]] == "true";
    var l := LowerString(v);
    if |v| == 4 {
      assert l == [l[0], l[1], l[2], l[3]];
    }
  }

  /** `equalsIgnoreCase("false")`, character by character. */
  lemma IgnoreCaseFalse(v: string)
    ensures EqualsIgnoreCase(v, "false") <==>
              |v| == 5 && ToLower(v[0]) == 'f' && ToLower(v[1]) == 'a' && ToLower(v[2]) == 'l'
                && ToLower(v[3]) == 's' && ToLower(v[4]) == 'e'
  {
    var t := LowerString("false");
    assert t == [t[0], t[1], t[2], t[3], t[4]] == "false";
    var l := LowerString(v);
    if |v| == 5 {
      assert l == [l[0], l[1], l[2], l[3], l[4]];
    }
  }

  /** The two words the action writes are themselves boolean words, with their own parse. */
  lemma WrittenWords()
    ensures LooksBoolean("True") && ParseBoolean("True")
    ensures LooksBoolean("False") && !ParseBoolean("False")
  {
    TrimPlain("True");
    TrimPlain("False");
    IgnoreCaseTrue("True");
    IgnoreCaseFalse("False");
    IgnoreCaseTrue("False");
  }

  /** The action flips its own output: `True` becomes `False` and `False` becomes `True`. */
  lemma NegateWritten()
    ensures NegateValue("True") == Some("False")
    ensures NegateValue("False") == Some("True")
  {
    WrittenWords();
  }

  /** `TRUE` becomes `False`. */
  lemma NegateUpperTrue()
    ensures NegateValue("TRUE") == Some("False")
  {
    TrimPlain("TRUE");
    IgnoreCaseTrue("TRUE");
  }

  /** `false` becomes `True`. */
  lemma NegateFalse()
    ensures NegateValue("false") == Some("True")
  {
    TrimPlain("false");
    IgnoreCaseFalse("false");
    IgnoreCaseTrue("false");
  }

  /** A value with a leading space passes the trimmed guard but parses as false: ` true` becomes `True`. */
  lemma NegatePaddedTrue()
    ensures NegateValue(" true") == Some("True")
  {
    var v := " true";
    assert v[1..] == "true";
    assert TrimStart("true") == "true";
    assert TrimStart(v) == "true";
    assert TrimEnd("true") == "true";
    assert Trim(v) == "true";
    IgnoreCaseTrue("true");
    IgnoreCaseTrue(v);
    assert LooksBoolean(v) && !ParseBoolean(v);
  }

  /** A value that is no boolean word is left alone. */
  lemma NegateOther()
    ensures NegateValue("yes") == None
  {
    TrimPlain("yes");
    IgnoreCaseTrue("yes");
    IgnoreCaseFalse("yes");
    assert !LooksBoolean("yes");
  }

  /** The key the action reads its column from. */
  const ColumnNameParameter := "column_name"

  /**
   * One action parameter: its key and its text value (`None` when the JSON value is not a text,
   * which `getTextValue` reports as null).
   */
  datatype Parameter = Parameter(key: string, text: Option<string>)

  /**
   * The column the action works on: the text of the last `column_name` parameter, later ones
   * overwriting earlier ones; `None` when there is none or its value is no text.
   */
  function ColumnName(ps: seq<Parameter>): (r: Option<string>)
    ensures (forall i :: 0 <= i < |ps| ==> ps[i].key != ColumnNameParameter) ==> r == None
    ensures r.Some? ==> exists i :: 0 <= i < |ps| && ps[i] == Parameter(ColumnNameParameter, r)
    decreases |ps|
  {
    if ps == [] then None
    else
      var last := ps[|ps| - 1];
      if last.key == ColumnNameParameter then last.text
      else
        var r := ColumnName(ps[..|ps| - 1]);
        assert forall i :: 0 <= i < |ps| - 1 ==> ps[..|ps| - 1][i] == ps[i];
        r
  }

  /** The last `column_name` parameter decides, whatever comes before it. */
  lemma ColumnNameLast(ps: seq<Parameter>, v: Option<string>)
    ensures ColumnName(ps + [Parameter(ColumnNameParameter, v)]) == v
  {
  }

  /** Parameters with any other key are ignored, wherever they appear. */
  lemma {:induction false} ColumnNameIgnores(ps: seq<Parameter>, p: Parameter, qs: seq<Parameter>)
    requires p.key != ColumnNameParameter
    ensures ColumnName(ps + [p] + qs) == ColumnName(ps + qs)
    decreases |qs|
  {
    if qs == [] {
      assert (ps + [p] + qs)[..|ps + [p] + qs| - 1] == ps;
      assert ps + qs == ps;
    } else {
      var q := qs[|qs| - 1];
      var qs' := qs[..|qs| - 1];
      assert ps + [p] + qs == (ps + [p] + qs') + [q];
      assert ps + qs == (ps + qs') + [q];
      ColumnNameIgnores(ps, p, qs');
    }
  }

  /** A row of the data set: the values of its columns, by column name; a missing name reads as null. */
  type Row = map<string, string>

  /** The row function the action creates: negate the value of its column when that value is a boolean word. */
  function Apply(ps: seq<Parameter>, row: Row): (r: Row)
    ensures r.Keys == row.Keys
    ensures forall k :: k in row && Some(k) != ColumnName(ps) ==> r[k] == row[k]
    ensures forall k :: k in row && Some(k) == ColumnName(ps) ==>
              r[k] == (if LooksBoolean(row[k]) then NegateValue(row[k]).value else row[k])
  {
    var column := ColumnName(ps);
    if column.Some? && column.value in row && NegateValue(row[column.value]).Some? then
      row[column.value := NegateValue(row[column.value]).value]
    else row
  }

  /** Negating twice gives back a proper-cased boolean: `True` stays `True`, `False` stays `False`. */
  lemma NegateTwice(v: string)
    requires LooksBoolean(v)
    ensures var w := NegateValue(v).value;
            NegateValue(w).Some? && NegateValue(NegateValue(w).value) == Some(w)
  {
    var w := NegateValue(v).value;
    NegateFlips(w);
  }

  lemma NegateFlips(w: string)
    requires w == "True" || w == "False"
    ensures NegateValue(w).Some? && NegateValue(NegateValue(w).value) == Some(w)
  {
    NegateWritten();
  }
}
