/**
 * The editable-regex widget: the user picks a match type (Equals, Contains, Starts With, Ends With or a
 * raw RegEx) and types plain text; the widget turns the text into a regular expression by escaping its
 * metacharacters and adding the type's anchors, and reads a stored expression back by finding the first
 * type whose shape it has and stripping that shape off again.
 */
module EditableRegex {

  /** The characters `escape` protects: `[ ] { } ( ) * + ? . \ ^ $ | /`, in the order `unescape` restores them. */
  const Meta: seq<char> := ['[', ']', '{', '}', '(', ')', '*', '+', '?', '.', '\\', '^', '$', '|', '/']

  predicate IsMeta(c: char) { c in Meta }

  /** JavaScript line terminators, which `.` in a regular expression does not match. */
  predicate IsLineTerminator(c: char) { c == '\n' || c == '\r' || c == '\U{2028}' || c == '\U{2029}' }

  predicate NoLineTerminator(s: string) { forall i :: 0 <= i < |s| ==> !IsLineTerminator(s[i]) }

  /** A text with no metacharacter, which escaping leaves as it is. */
  predicate NoMeta(s: string) { forall i :: 0 <= i < |s| ==> !IsMeta(s[i]) }

  /** The bracket form `[c]` `escape` writes for the metacharacter `c`. */
  function Bracket(c: char): (r: string)
    ensures |r| == 3 && r[0] == '[' && r[1] == c && r[2] == ']'
  {
    ['[', c, ']']
  }

  // ---------------------------------------------------------------------------------------------
  // escape / unescape
  // ---------------------------------------------------------------------------------------------

  /** Escaping replaces every metacharacter `c` by `[c]` and keeps every other character. */
  function Escape(v: string): (r: string)
    ensures |r| >= |v|
    ensures v == [] ==> r == []
  {
    if v == [] then []
    else if IsMeta(v[0]) then Bracket(v[0]) + Escape(v[1..])
    else [v[0]] + Escape(v[1..])
  }

  /** Escaping works character by character. */
  lemma {:induction false} EscapeAppend(a: string, b: string)
    ensures Escape(a + b) == Escape(a) + Escape(b)
  {
    if a != [] {
      var h := if IsMeta(a[0]) then Bracket(a[0]) else [a[0]];
      assert (a + b)[0] == a[0] && (a + b)[1..] == a[1..] + b;
      assert Escape(a + b) == h + Escape(a[1..] + b);
      assert Escape(a) == h + Escape(a[1..]);
      EscapeAppend(a[1..], b);
      assert h + (Escape(a[1..]) + Escape(b)) == (h + Escape(a[1..])) + Escape(b);
    } else {
      assert a + b == b;
    }
  }

  /** Escaping changes a text exactly when the text holds a metacharacter. */
  lemma {:induction false} EscapeIdentity(v: string)
    ensures Escape(v) == v <==> forall i :: 0 <= i < |v| ==> !IsMeta(v[i])
  {
    if v != [] {
      EscapeIdentity(v[1..]);
      if IsMeta(v[0]) {
        assert |Escape(v)| >= |v| + 2;
      } else {
        assert forall i :: 1 <= i < |v| ==> v[i] == v[1..][i - 1];
      }
    }
  }

  /** Escaping adds no line terminator: every character of the result is one of the input's, or a bracket. */
  lemma {:induction false} EscapeNoLineTerminator(v: string)
    requires NoLineTerminator(v)
    ensures NoLineTerminator(Escape(v))
  {
    if v != [] {
      assert NoLineTerminator(v[1..]) by {
        assert forall i :: 0 <= i < |v[1..]| ==> v[1..][i] == v[i + 1];
      }
      EscapeNoLineTerminator(v[1..]);
    }
  }

  /**
   * `unescape` as the widget writes it: fifteen string-pattern replacements, one per metacharacter, each of
   * which rewrites only the FIRST occurrence of `[c]` in the text it receives.
   */
  function UnescapeAsWritten(s: string): string
  {
    ReplaceEach(s, Meta)
  }

  /** Applies the first-occurrence replacement of `[c]` by `c` for every `c` of `cs`, in order. */
  function ReplaceEach(s: string, cs: seq<char>): string
    decreases |cs|
  {
    if cs == [] then s else ReplaceEach(ReplaceFirst(s, Bracket(cs[0]), [cs[0]]), cs[1..])
  }

  /** The pattern occurs at position `i` of `s`. */
  predicate OccursAt(s: string, pat: string, i: nat)
  {
    i + |pat| <= |s| && s[i..i + |pat|] == pat
  }

  /** `String.prototype.replace` with a string pattern: only the first occurrence of `pat` is rewritten. */
  function ReplaceFirst(s: string, pat: string, rep: string): (r: string)
    requires pat != []
    ensures (forall i :: 0 <= i <= |s| ==> !OccursAt(s, pat, i)) ==> r == s
    decreases |s|
  {
    if |s| < |pat| then s
    else if s[..|pat|] == pat then
      assert OccursAt(s, pat, 0);
      rep + s[|pat|..]
    else
      var r := [s[0]] + ReplaceFirst(s[1..], pat, rep);
      assert forall i :: 0 <= i <= |s[1..]| && OccursAt(s[1..], pat, i) ==> OccursAt(s, pat, i + 1) by {
        forall i | 0 <= i <= |s[1..]| {
          OccursTail(s, pat, i);
        }
      }
      r
  }

  /** An occurrence in the tail of a text is an occurrence one position further in the text. */
  lemma OccursTail(s: string, pat: string, j: nat)
    requires s != []
    ensures OccursAt(s[1..], pat, j) <==> OccursAt(s, pat, j + 1)
  {
    if j + 1 + |pat| <= |s| {
      assert s[1..][j..j + |pat|] == s[j + 1..j + 1 + |pat|];
    }
  }

  /** Where the pattern does not start the text, the first character is kept and the search goes on in the tail. */
  lemma ReplaceFirstSkip(s: string, pat: string, rep: string)
    requires pat != [] && |pat| <= |s| && !OccursAt(s, pat, 0)
    ensures ReplaceFirst(s, pat, rep) == [s[0]] + ReplaceFirst(s[1..], pat, rep)
  {
    assert s[..|pat|] != pat;
  }

  /** The first occurrence is the one replaced: text before it is kept, the pattern becomes `rep`, the rest is kept. */
  lemma {:induction false} ReplaceFirstAt(s: string, pat: string, rep: string, i: nat)
    requires pat != [] && OccursAt(s, pat, i)
    requires forall j :: 0 <= j < i ==> !OccursAt(s, pat, j)
    ensures ReplaceFirst(s, pat, rep) == s[..i] + rep + s[i + |pat|..]
    decreases i
  {
    if i > 0 {
      var t := s[1..];
      OccursTail(s, pat, i - 1);
      forall j | 0 <= j < i - 1 ensures !OccursAt(t, pat, j) {
        OccursTail(s, pat, j);
      }
      ReplaceFirstAt(t, pat, rep, i - 1);
      ReplaceFirstSkip(s, pat, rep);
      assert s[..i] == [s[0]] + t[..i - 1];
      assert t[i - 1 + |pat|..] == s[i + |pat|..];
      assert [s[0]] + (t[..i - 1] + rep + t[i - 1 + |pat|..]) == s[..i] + rep + s[i + |pat|..];
    } else {
      assert s[..|pat|] == pat;
      assert s[..0] + rep + s[|pat|..] == rep + s[|pat|..];
    }
  }

  /** A text without `[` is left alone by the widget's `unescape`, as every pattern starts with `[`. */
  lemma {:induction false} UnescapeAsWrittenPlain(s: string, cs: seq<char>)
    requires forall i :: 0 <= i < |s| ==> s[i] != '['
    ensures ReplaceEach(s, cs) == s
    decreases |cs|
  {
    if cs != [] {
      forall i | 0 <= i <= |s| ensures !OccursAt(s, Bracket(cs[0]), i) {
        if i + 3 <= |s| {
          assert s[i..i + 3][0] == s[i];
        }
      }
      UnescapeAsWrittenPlain(s, cs[1..]);
    }
  }

  /**
   * `unescape` as evidently intended: the inverse of `escape`, reading the text left to right and turning
   * every `[c]` with `c` a metacharacter back into `c`, however often it occurs.
   */
  function Unescape(s: string): (r: string)
    ensures |r| <= |s|
    decreases |s|
  {
    if s == [] then []
    else if |s| >= 3 && s[0] == '[' && IsMeta(s[1]) && s[2] == ']' then [s[1]] + Unescape(s[3..])
    else [s[0]] + Unescape(s[1..])
  }

  /** Unescaping an escaped text gives the text back, for every text. */
  lemma {:induction false} UnescapeEscape(v: string)
    ensures Unescape(Escape(v)) == v
  {
    if v != [] {
      UnescapeEscape(v[1..]);
      var e := Escape(v);
      if IsMeta(v[0]) {
        assert e[3..] == Escape(v[1..]);
      } else {
        assert e[1..] == Escape(v[1..]);
        assert e[0] == v[0] != '[';
      }
      assert v == [v[0]] + v[1..];
    }
  }

  /** The text `a..b`: the widget's `unescape` restores only the first of the two escaped dots. */
  lemma UnescapeFirstOnlyExample()
    ensures Escape("a..b") == "a[.][.]b"
    ensures UnescapeAsWritten(Escape("a..b")) == "a.[.]b"
    ensures Unescape(Escape("a..b")) == "a..b"
  {
    EscapeDots();
    DotsAsWritten();
    UnescapeEscape("a..b");
  }

  /** The fifteen replacements applied to `a[.][.]b`: only the one for `.` changes anything, and only once. */
  lemma DotsAsWritten()
    ensures UnescapeAsWritten("a[.][.]b") == "a.[.]b"
  {
    var e := "a[.][.]b";
    var pre := Meta[..9];
    var post := Meta[10..];
    MetaAroundDot();
    calc {
      UnescapeAsWritten(e);
      ReplaceEach(e, pre + (['.'] + post));
      { ReplaceEachSplit(e, pre, ['.'] + post); }
      ReplaceEach(ReplaceEach(e, pre), ['.'] + post);
      { DotsBracketed(e); OthersKeep(e, pre, '.'); }
      ReplaceEach(e, ['.'] + post);
      { FirstDotRestored(); }
      ReplaceEach("a.[.]b", post);
      { DotsBracketed("a.[.]b"); OthersKeep("a.[.]b", post, '.'); }
      "a.[.]b";
    }
  }

  /** The metacharacters split around `.`, which occurs once among them. */
  lemma MetaAroundDot()
    ensures Meta == Meta[..9] + (['.'] + Meta[10..])
    ensures '.' !in Meta[..9] && '.' !in Meta[10..]
  {
    assert Meta[..9] == ['[', ']', '{', '}', '(', ')', '*', '+', '?'];
    assert Meta[10..] == ['\\', '^', '$', '|', '/'];
  }

  lemma EscapeDots()
    ensures Escape("a..b") == "a[.][.]b"
  {
    var s := "a..b";
    assert !IsMeta('b') && !IsMeta('a') && IsMeta('.');
    assert s[1..] == "..b" && s[2..] == ".b" && s[3..] == "b";
    assert Escape("b") == "b";
    assert Escape(".b") == Bracket('.') + "b";
    assert Escape("..b") == Bracket('.') + (Bracket('.') + "b");
    assert Escape(s) == "a" + Escape("..b");
  }

  lemma DotsBracketed(s: string)
    requires s == "a[.][.]b" || s == "a.[.]b"
    ensures forall i :: 0 <= i < |s| - 1 && s[i] == '[' ==> s[i + 1] == '.'
  {
  }

  lemma FirstDotRestored()
    ensures ReplaceEach("a[.][.]b", ['.'] + Meta[10..]) == ReplaceEach("a.[.]b", Meta[10..])
  {
    ReplaceEachCons("a[.][.]b", '.', Meta[10..]);
    FirstDot();
  }

  /** The replacement for `.` rewrites the first `[.]` of `a[.][.]b` only. */
  lemma FirstDot()
    ensures ReplaceFirst("a[.][.]b", Bracket('.'), ['.']) == "a.[.]b"
  {
    var e := "a[.][.]b";
    assert e[0] == 'a';
    assert !OccursAt(e, Bracket('.'), 0);
    assert e[1..4] == Bracket('.');
    ReplaceFirstAt(e, Bracket('.'), ['.'], 1);
    assert e[..1] + ['.'] + e[4..] == "a.[.]b";
  }

  /** The replacements for `c` and then `cs`: the one for `c` first. */
  lemma ReplaceEachCons(s: string, c: char, cs: seq<char>)
    ensures ReplaceEach(s, [c] + cs) == ReplaceEach(ReplaceFirst(s, Bracket(c), [c]), cs)
  {
    assert ([c] + cs)[0] == c && ([c] + cs)[1..] == cs;
  }

  lemma {:induction false} ReplaceEachSplit(s: string, a: seq<char>, b: seq<char>)
    ensures ReplaceEach(s, a + b) == ReplaceEach(ReplaceEach(s, a), b)
    decreases |a|
  {
    if a != [] {
      assert (a + b)[0] == a[0] && (a + b)[1..] == a[1..] + b;
      ReplaceEachSplit(ReplaceFirst(s, Bracket(a[0]), [a[0]]), a[1..], b);
    } else {
      assert a + b == b;
    }
  }

  /** When every `[` of the text is followed by `x`, the replacements for metacharacters other than `x` change nothing. */
  lemma {:induction false} OthersKeep(s: string, cs: seq<char>, x: char)
    requires forall i :: 0 <= i < |s| - 1 && s[i] == '[' ==> s[i + 1] == x
    requires x !in cs
    ensures ReplaceEach(s, cs) == s
    decreases |cs|
  {
    if cs != [] {
      forall i | 0 <= i <= |s| ensures !OccursAt(s, Bracket(cs[0]), i) {
        if i + 3 <= |s| {
          assert s[i..i + 3][0] == s[i] && s[i..i + 3][1] == s[i + 1];
        }
      }
      OthersKeep(s, cs[1..], x);
    }
  }

  // ---------------------------------------------------------------------------------------------
  // The five regex types
  // ---------------------------------------------------------------------------------------------

  datatype RegexType = Equals | Contains | StartsWith | EndsWith | RegEx

  /** The order in which a stored expression's type is looked for. */
  const Types: seq<RegexType> := [Equals, Contains, StartsWith, EndsWith, RegEx]

  function Key(t: RegexType): string
  {
    match t
    case Equals => "="
    case Contains => "≅"
    case StartsWith => ">"
    case EndsWith => "<"
    case RegEx => "^\\"
  }

  function Label(t: RegexType): string
  {
    match t
    case Equals => "Equals"
    case Contains => "Contains"
    case StartsWith => "Starts With"
    case EndsWith => "Ends With"
    case RegEx => "RegEx"
  }

  /** The expression a type builds from the entered text: the escaped text between the type's anchors. */
  function Adapt(t: RegexType, v: string): (r: string)
    ensures t == Equals ==> r == "^" + Escape(v) + "$"
    ensures t == Contains ==> r == ".*" + Escape(v) + ".*"
    ensures t == StartsWith ==> r == "^" + Escape(v) + ".*"
    ensures t == EndsWith ==> r == ".*" + Escape(v) + "$"
    ensures t == RegEx ==> r == v
  {
    match t
    case Equals => "^" + Escape(v) + "$"
    case Contains => ".*" + Escape(v) + ".*"
    case StartsWith => "^" + Escape(v) + ".*"
    case EndsWith => ".*" + Escape(v) + "$"
    case RegEx => v
  }

  /** `/^[\^].*[$]$/`: a `^`, then characters other than line terminators, then a final `$`. */
  predicate MatchEquals(v: string)
  {
    |v| >= 2 && v[0] == '^' && v[|v| - 1] == '$' && NoLineTerminator(v[1..|v| - 1])
  }

  /** `/^[.][*].*[.][*]$/`: `.*`, then characters other than line terminators, then a final `.*`. */
  predicate MatchContains(v: string)
  {
    |v| >= 4 && v[..2] == ".*" && v[|v| - 2..] == ".*" && NoLineTerminator(v[2..|v| - 2])
  }

  /**
   * `/^[^].*[.][*]$/` as the widget writes it. In a JavaScript regular expression `[^]` is the empty
   * negated class, which matches ANY character: the first character is not checked to be `^`.
   */
  predicate MatchStartsWithAsWritten(v: string)
  {
    |v| >= 3 && v[|v| - 2..] == ".*" && NoLineTerminator(v[1..|v| - 2])
  }

  /** `/^[\^].*[.][*]$/`, the evidently intended Starts With shape: a leading `^` and a final `.*`. */
  predicate MatchStartsWith(v: string)
  {
    |v| >= 3 && v[0] == '^' && v[|v| - 2..] == ".*" && NoLineTerminator(v[1..|v| - 2])
  }

  /** `/^[.][*].*[$]$/`: `.*`, then characters other than line terminators, then a final `$`. */
  predicate MatchEndsWith(v: string)
  {
    |v| >= 3 && v[..2] == ".*" && v[|v| - 1] == '$' && NoLineTerminator(v[2..|v| - 1])
  }

  /** Whether a stored expression has the shape of type `t`; RegEx accepts everything. */
  predicate Matches(t: RegexType, v: string)
  {
    match t
    case Equals => MatchEquals(v)
    case Contains => MatchContains(v)
    case StartsWith => MatchStartsWith(v)
    case EndsWith => MatchEndsWith(v)
    case RegEx => true
  }

  /** `Matches` with the Starts With shape exactly as the widget writes it. */
  predicate MatchesAsWritten(t: RegexType, v: string)
  {
    if t == StartsWith then MatchStartsWithAsWritten(v) else Matches(t, v)
  }

  /** `String.prototype.substring(a, b)`: both ends clamped to the text, swapped when the first is larger. */
  function Substring(s: string, a: int, b: int): (r: string)
    ensures 0 <= a <= b <= |s| ==> r == s[a..b]
    ensures |r| <= |s|
  {
    var a' := if a < 0 then 0 else if a > |s| then |s| else a;
    var b' := if b < 0 then 0 else if b > |s| then |s| else b;
    if a' <= b' then s[a'..b'] else s[b'..a']
  }

  /** How many characters of anchor a type puts before the escaped text. */
  function Front(t: RegexType): nat
  {
    match t
    case Equals => 1
    case Contains => 2
    case StartsWith => 1
    case EndsWith => 2
    case RegEx => 0
  }

  /** How many characters of anchor a type puts after the escaped text. */
  function Back(t: RegexType): nat
  {
    match t
    case Equals => 1
    case Contains => 2
    case StartsWith => 2
    case EndsWith => 1
    case RegEx => 0
  }

  /** The part of a stored expression between a type's anchors. */
  function Strip(t: RegexType, v: string): string
  {
    Substring(v, Front(t), |v| - Back(t))
  }

  /** Cutting a type's anchors off the expression it built gives back the escaped text. */
  lemma StripAdapt(t: RegexType, v: string)
    requires t != RegEx
    ensures Strip(t, Adapt(t, v)) == Escape(v)
  {
    var e := Escape(v);
    match t
    case Equals => assert ("^" + e + "$")[1..|e| + 1] == e;
    case Contains => assert (".*" + e + ".*")[2..|e| + 2] == e;
    case StartsWith => assert ("^" + e + ".*")[1..|e| + 1] == e;
    case EndsWith => assert (".*" + e + "$")[2..|e| + 2] == e;
  }

  /** The entered text a type reads back from a stored expression: the anchors cut off and the rest unescaped. */
  function Clean(t: RegexType, v: string): string
  {
    if t == RegEx then v else Unescape(Strip(t, v))
  }

  /** `Clean` with the widget's own `unescape`. */
  function CleanAsWritten(t: RegexType, v: string): string
  {
    if t == RegEx then v else UnescapeAsWritten(Strip(t, v))
  }

  /** Reading back what a type built from a text gives the text again, for every type and every text. */
  lemma CleanAdapt(t: RegexType, v: string)
    ensures Clean(t, Adapt(t, v)) == v
  {
    if t != RegEx {
      StripAdapt(t, v);
      UnescapeEscape(v);
    }
  }

  /** A text without `[` is left alone by the widget's own `unescape`. */
  lemma UnescapeAsWrittenNoMeta(v: string)
    requires forall i :: 0 <= i < |v| ==> !IsMeta(v[i])
    ensures UnescapeAsWritten(v) == v
  {
    assert forall i :: 0 <= i < |v| ==> v[i] != '[' by {
      assert IsMeta('[');
    }
    UnescapeAsWrittenPlain(v, Meta);
  }

  /** With the widget's own `unescape` the round trip holds for texts without metacharacters. */
  lemma CleanAsWrittenAdapt(t: RegexType, v: string)
    ensures NoMeta(v) ==> CleanAsWritten(t, Adapt(t, v)) == v
  {
    if t != RegEx && NoMeta(v) {
      EscapeIdentity(v);
      StripAdapt(t, v);
      UnescapeAsWrittenNoMeta(v);
    }
  }

  // ---------------------------------------------------------------------------------------------
  // Type detection
  // ---------------------------------------------------------------------------------------------

  /** The shape test of type `t`: the widget's own, or the corrected one. */
  predicate Accepts(t: RegexType, v: string, asWritten: bool)
  {
    if asWritten then MatchesAsWritten(t, v) else Matches(t, v)
  }

  /** The first of `types` whose shape `v` has; RegEx when none has. */
  function FirstMatch(types: seq<RegexType>, v: string, asWritten: bool): (r: RegexType)
    ensures r in types ==> Accepts(r, v, asWritten)
    ensures r !in types ==> r == RegEx && forall t :: t in types ==> !Accepts(t, v, asWritten)
    decreases |types|
  {
    if types == [] then RegEx
    else if Accepts(types[0], v, asWritten) then types[0]
    else FirstMatch(types[1..], v, asWritten)
  }

  /** No type listed before the one `FirstMatch` picks accepts `v`: a type that accepts it is the pick or comes after it. */
  lemma {:induction false} FirstMatchIsFirst(types: seq<RegexType>, v: string, asWritten: bool, i: nat)
    requires i < |types| && Accepts(types[i], v, asWritten)
    ensures FirstMatch(types, v, asWritten) in types[..i + 1]
    decreases i
  {
    if i > 0 && !Accepts(types[0], v, asWritten) {
      var rest := types[1..];
      assert rest[i - 1] == types[i];
      FirstMatchIsFirst(rest, v, asWritten, i - 1);
      assert rest[..i] == types[1..i + 1];
    }
  }

  /** `getRegexType`: the first type, in the order Equals, Contains, Starts With, Ends With, RegEx, that accepts `v`. */
  function Detect(v: string): (t: RegexType)
    ensures Matches(t, v)
    ensures t != Equals ==> !MatchEquals(v)
    ensures t != Equals && t != Contains ==> !MatchContains(v)
    ensures t == EndsWith || t == RegEx ==> !MatchStartsWith(v)
    ensures t == RegEx ==> !MatchEndsWith(v)
  {
    FirstMatch(Types, v, false)
  }

  /** `getRegexType` with the Starts With shape as the widget writes it. */
  function DetectAsWritten(v: string): (t: RegexType)
    ensures MatchesAsWritten(t, v)
    ensures t != Equals ==> !MatchEquals(v)
    ensures t != Equals && t != Contains ==> !MatchContains(v)
    ensures t == EndsWith || t == RegEx ==> !MatchStartsWithAsWritten(v)
    ensures t == RegEx ==> !MatchEndsWith(v)
  {
    FirstMatch(Types, v, true)
  }

  /** A type detected as Starts With really begins with the `^` anchor. */
  lemma DetectStartsWith(v: string)
    requires Detect(v) == StartsWith
    ensures |v| >= 3 && v[0] == '^' && v[|v| - 2..] == ".*"
  {
  }

  /**
   * Every expression built by one of the four anchored types from a text without line terminators is
   * detected as that type again.
   */
  lemma DetectAdapt(t: RegexType, v: string)
    requires t != RegEx && NoLineTerminator(v)
    ensures Detect(Adapt(t, v)) == t
  {
    AdaptShapes(t, v);
  }

  /** The widget's own detection also recovers the four anchored types. */
  lemma DetectAsWrittenAdapt(t: RegexType, v: string)
    requires t != RegEx && NoLineTerminator(v)
    ensures DetectAsWritten(Adapt(t, v)) == t
  {
    AdaptShapes(t, v);
  }

  /** Which shapes the expression of each anchored type has, in detection order up to its own. */
  lemma AdaptShapes(t: RegexType, v: string)
    requires t != RegEx && NoLineTerminator(v)
    ensures var a := Adapt(t, v);
            (MatchEquals(a) <==> t == Equals)
            && (t != Equals ==> (MatchContains(a) <==> t == Contains))
            && (t == StartsWith ==> MatchStartsWith(a) && MatchStartsWithAsWritten(a))
            && (t == EndsWith ==> MatchEndsWith(a) && !MatchStartsWith(a) && !MatchStartsWithAsWritten(a))
  {
    EscapeNoLineTerminator(v);
    match t
    case Equals => EqualsShape(v);
    case Contains => ContainsShape(v);
    case StartsWith => StartsWithShape(v);
    case EndsWith => EndsWithShape(v);
  }

  lemma EqualsShape(v: string)
    requires NoLineTerminator(Escape(v))
    ensures MatchEquals(Adapt(Equals, v))
  {
    var a := Adapt(Equals, v);
    assert a[1..|a| - 1] == Escape(v);
  }

  lemma ContainsShape(v: string)
    requires NoLineTerminator(Escape(v))
    ensures !MatchEquals(Adapt(Contains, v)) && MatchContains(Adapt(Contains, v))
  {
    var a := Adapt(Contains, v);
    assert a[2..|a| - 2] == Escape(v);
    assert a[..2] == ".*" && a[|a| - 2..] == ".*";
    assert a[0] == '.';
  }

  lemma StartsWithShape(v: string)
    requires NoLineTerminator(Escape(v))
    ensures var a := Adapt(StartsWith, v);
            !MatchEquals(a) && !MatchContains(a) && MatchStartsWith(a) && MatchStartsWithAsWritten(a)
  {
    var a := Adapt(StartsWith, v);
    assert a[1..|a| - 2] == Escape(v);
    assert a[|a| - 2..] == ".*";
    assert a[0] == '^' && a[|a| - 1] == '*';
    assert a[..2][0] == '^';
  }

  lemma EndsWithShape(v: string)
    requires NoLineTerminator(Escape(v))
    ensures var a := Adapt(EndsWith, v);
            !MatchEquals(a) && !MatchContains(a) && MatchEndsWith(a) && !MatchStartsWith(a) && !MatchStartsWithAsWritten(a)
  {
    var a := Adapt(EndsWith, v);
    assert a[2..|a| - 1] == Escape(v);
    assert a[..2] == ".*";
    assert a[0] == '.' && a[|a| - 1] == '$';
    assert a[|a| - 2..][1] == '$';
  }

  /** The raw expression `abc.*` is taken for a Starts With expression by the widget ... */
  lemma DetectAsWrittenExample()
    ensures DetectAsWritten("abc.*") == StartsWith
  {
    var v := "abc.*";
    assert v[0] == 'a' && v[1] == 'b' && v[|v| - 1] == '*';
    assert !MatchEquals(v);
    assert v[..2][0] == 'a';
    assert !MatchContains(v);
    assert v[|v| - 2..] == ".*";
    assert v[1..|v| - 2] == "bc";
    assert MatchStartsWithAsWritten(v);
  }

  /** ... and read back as the text `bc`, its first character dropped ... */
  lemma CleanAsWrittenExample()
    ensures CleanAsWritten(StartsWith, "abc.*") == "bc"
  {
    var v := "abc.*";
    assert Strip(StartsWith, v) == v[1..|v| - 2] == "bc";
    UnescapeAsWrittenNoMeta("bc");
  }

  /** ... while requiring the leading `^` keeps it a raw expression, read back unchanged. */
  lemma DetectExample()
    ensures Detect("abc.*") == RegEx && Clean(RegEx, "abc.*") == "abc.*"
  {
    var v := "abc.*";
    assert !MatchEquals(v) && !MatchContains(v);
    assert v[0] != '^';
    assert !MatchEndsWith(v) by { assert v[|v| - 1] == '*'; }
  }

  // ---------------------------------------------------------------------------------------------
  // The controller
  // ---------------------------------------------------------------------------------------------

  /** The widget's state: the selected type, the entered text and the expression bound to the model. */
  datatype Widget = Widget(selected: RegexType, regex: string, value: string)

  /**
   * The widget built on a model value, as the controller does it: an empty value gives Equals and an empty
   * text; any other value is read back with the first type whose shape, as the widget tests it, the value has.
   */
  function Init(value: string): (w: Widget)
    ensures w.value == value
    ensures value == [] ==> w.selected == Equals && w.regex == []
    ensures value != [] ==> MatchesAsWritten(w.selected, value)
    ensures value != [] && w.selected != Equals ==> !MatchEquals(value)
    ensures value != [] && w.selected == RegEx ==> w.regex == value
  {
    if value == [] then Widget(Equals, [], value)
    else
      var t := DetectAsWritten(value);
      Widget(t, CleanAsWritten(t, value), value)
  }

  /** `Init` with the corrected Starts With shape and the corrected unescape. */
  function InitCorrected(value: string): (w: Widget)
    ensures w.value == value
    ensures value == [] ==> w.selected == Equals && w.regex == []
    ensures value != [] ==> Matches(w.selected, value)
    ensures value != [] && w.selected != Equals ==> !MatchEquals(value)
    ensures value != [] && w.selected == RegEx ==> w.regex == value
  {
    if value == [] then Widget(Equals, [], value)
    else
      var t := Detect(value);
      Widget(t, Clean(t, value), value)
  }

  /**
   * The model value follows the entered text: the selected type's expression, or the empty text as it is.
   * The corrected read-back recovers every text; the widget's own recovers texts without metacharacters.
   */
  function UpdateModel(w: Widget): (r: Widget)
    ensures r.selected == w.selected && r.regex == w.regex
    ensures w.regex == [] ==> r.value == []
    ensures w.regex != [] ==> Clean(w.selected, r.value) == w.regex
    ensures w.regex != [] && NoMeta(w.regex) ==> CleanAsWritten(w.selected, r.value) == w.regex
  {
    if w.regex != [] then
      CleanAdapt(w.selected, w.regex);
      CleanAsWrittenAdapt(w.selected, w.regex);
      w.(value := Adapt(w.selected, w.regex))
    else w.(value := w.regex)
  }

  /** Choosing a type rebuilds the model value from the entered text with that type. */
  function SetSelectedType(w: Widget, t: RegexType): (r: Widget)
    ensures r.selected == t && r.regex == w.regex
    ensures w.regex != [] ==> r.value == Adapt(t, w.regex)
    ensures w.regex == [] ==> r.value == []
  {
    UpdateModel(w.(selected := t))
  }

  /**
   * A widget rebuilt on the value it produced is the same widget: type and text survive a save and reload,
   * for the four anchored types and any text without line terminators or metacharacters.
   */
  lemma ReloadRecovers(w: Widget)
    requires w.selected != RegEx && w.regex != [] && NoLineTerminator(w.regex) && NoMeta(w.regex)
    ensures Init(UpdateModel(w).value) == UpdateModel(w)
  {
    var a := Adapt(w.selected, w.regex);
    assert UpdateModel(w).value == a;
    assert |a| >= |Escape(w.regex)| >= |w.regex| > 0;
    DetectAsWrittenAdapt(w.selected, w.regex);
  }

  /** With the corrected reading, type and text survive a reload for any text without line terminators. */
  lemma ReloadRecoversCorrected(w: Widget)
    requires w.selected != RegEx && w.regex != [] && NoLineTerminator(w.regex)
    ensures InitCorrected(UpdateModel(w).value) == UpdateModel(w)
  {
    var a := Adapt(w.selected, w.regex);
    assert UpdateModel(w).value == a;
    assert |a| >= |Escape(w.regex)| >= |w.regex| > 0;
    DetectAdapt(w.selected, w.regex);
    CleanAdapt(w.selected, w.regex);
  }

  /** The Equals text `a..b` is saved as `^a[.][.]b$` and reloads, as written, as the text `a.[.]b`. */
  lemma ReloadDotsAsWritten()
    ensures var w := UpdateModel(Widget(Equals, "a..b", ""));
            w.value == "^a[.][.]b$" && Init(w.value) == Widget(Equals, "a.[.]b", "^a[.][.]b$")
  {
    var a := Adapt(Equals, "a..b");
    assert UpdateModel(Widget(Equals, "a..b", "")).value == a;
    DotsReread();
    assert Init(a) == Widget(Equals, "a.[.]b", a);
    DotsSaved();
  }

  lemma DotsSaved()
    ensures Adapt(Equals, "a..b") == "^a[.][.]b$"
  {
    EscapeDots();
    assert "^" + "a[.][.]b" + "$" == "^a[.][.]b$";
  }

  /** The widget's own detection and read-back of the saved `a..b`. */
  lemma DotsReread()
    ensures Adapt(Equals, "a..b") != []
    ensures DetectAsWritten(Adapt(Equals, "a..b")) == Equals
    ensures CleanAsWritten(Equals, Adapt(Equals, "a..b")) == "a.[.]b"
  {
    DotsDetected();
    CleanAsWrittenOfAdapt(Equals, "a..b");
    UnescapeFirstOnlyExample();
  }

  lemma DotsDetected()
    ensures DetectAsWritten(Adapt(Equals, "a..b")) == Equals
  {
    var v := "a..b";
    assert NoLineTerminator(v);
    DetectAsWrittenAdapt(Equals, v);
  }

  /** The widget's own read-back of an anchored expression is its `unescape` applied to the escaped text. */
  lemma CleanAsWrittenOfAdapt(t: RegexType, v: string)
    requires t != RegEx
    ensures CleanAsWritten(t, Adapt(t, v)) == UnescapeAsWritten(Escape(v))
  {
    StripAdapt(t, v);
  }

  /** The raw expression `abc.*` is saved as it is and reloads, as written, as the Starts With text `bc`. */
  lemma ReloadRawAsWritten()
    ensures var w := UpdateModel(Widget(RegEx, "abc.*", ""));
            w.value == "abc.*" && Init(w.value) == Widget(StartsWith, "bc", "abc.*")
  {
    DetectAsWrittenExample();
    CleanAsWrittenExample();
  }

  /** An empty text is saved as the empty value, and that value reloads as Equals whatever type was selected. */
  lemma ReloadEmpty(w: Widget)
    requires w.regex == []
    ensures Init(UpdateModel(w).value) == Widget(Equals, [], [])
    ensures InitCorrected(UpdateModel(w).value) == Widget(Equals, [], [])
  {
  }

  /** A raw RegEx text survives a reload exactly when no anchored type, as the widget tests them, accepts it. */
  lemma ReloadRegEx(w: Widget)
    requires w.selected == RegEx && w.regex != []
    ensures Init(UpdateModel(w).value) == UpdateModel(w) <==>
              !MatchEquals(w.regex) && !MatchContains(w.regex) && !MatchStartsWithAsWritten(w.regex)
              && !MatchEndsWith(w.regex)
  {
  }

  /** With the corrected Starts With shape, a raw RegEx text survives a reload exactly when no anchored type accepts it. */
  lemma ReloadRegExCorrected(w: Widget)
    requires w.selected == RegEx && w.regex != []
    ensures InitCorrected(UpdateModel(w).value) == UpdateModel(w) <==>
              !MatchEquals(w.regex) && !MatchContains(w.regex) && !MatchStartsWith(w.regex) && !MatchEndsWith(w.regex)
  {
  }
}
