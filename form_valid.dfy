/**
 * The input tokeniser `data_split` and the three form validators built on it.
 *
 * `data_split` cuts a field's text at every run of commas and white space and
 * drops the empty pieces. It is modelled as the source computes it (`strip`,
 * then `re.split(r'[\s,]+', ...)`, then a filter) and proved equal to an
 * independent description: the words of the unique way of writing the text
 * as separator gaps and non-empty separator-free words.
 *
 * A validator's `__call__` either returns or raises `ValidationError` with
 * its message; here it returns a `Verdict`.
 */
module FormValid {
  import opened Wrappers
  import opened PyText

  /** A character of the class `[\s,]`. */
  predicate IsSep(c: char)
  {
    c == ',' || IsSpace(c)
  }

  predicate NoSep(w: string)
  {
    forall i :: 0 <= i < |w| ==> !IsSep(w[i])
  }

  predicate AllSep(g: string)
  {
    forall i :: 0 <= i < |g| ==> IsSep(g[i])
  }

  /** The longest prefix of s without a separator. */
  function Word(s: string): (w: string)
    ensures |w| <= |s| && w == s[..|w|] && NoSep(w)
    ensures |w| < |s| ==> IsSep(s[|w|])
  {
    if s == [] || IsSep(s[0]) then [] else [s[0]] + Word(s[1..])
  }

  /** The length of the leading run of separators of s. */
  function SepRun(s: string): (k: nat)
    ensures k <= |s|
    ensures forall i :: 0 <= i < k ==> IsSep(s[i])
    ensures k < |s| ==> !IsSep(s[k])
  {
    if s != [] && IsSep(s[0]) then 1 + SepRun(s[1..]) else 0
  }

  /**
   * `re.split(r'[\s,]+', t)`: the piece before the first separator run, then
   * the split of what follows that run. A leading or trailing run leaves an
   * empty piece at that end.
   */
  function SplitRuns(t: string): (pieces: seq<string>)
    ensures |pieces| >= 1
    decreases |t|
  {
    var w := Word(t);
    if |w| == |t| then [t]
    else var u := t[|w|..]; [w] + SplitRuns(u[SepRun(u)..])
  }

  /** `[s for s in pieces if s]`. */
  function DropEmpty(pieces: seq<string>): (kept: seq<string>)
    ensures |kept| <= |pieces|
    ensures forall i :: 0 <= i < |kept| ==> kept[i] != []
  {
    if pieces == [] then []
    else (if pieces[0] == [] then [] else [pieces[0]]) + DropEmpty(pieces[1..])
  }

  /** `data_split(data_string)`. */
  function DataSplit(s: string): (words: seq<string>)
    ensures forall i :: 0 <= i < |words| ==> words[i] != []
  {
    if s == [] || IsAllSpace(s) then [] else DropEmpty(SplitRuns(Strip(s)))
  }

  /** The maximal runs of non-separators of s, read character by character. */
  function Tokens(s: string): seq<string>
    decreases |s|
  {
    if s == [] then []
    else if IsSep(s[0]) then Tokens(s[1..])
    else var w := Word(s); [w] + Tokens(s[|w|..])
  }

  /** Separators in front change nothing. */
  lemma {:induction false} TokensAfterSeps(g: string, t: string)
    requires AllSep(g)
    ensures Tokens(g + t) == Tokens(t)
    decreases |g|
  {
    if g == [] {
      assert g + t == t;
    } else {
      assert (g + t)[1..] == g[1..] + t;
      TokensAfterSeps(g[1..], t);
    }
  }

  /** A word followed by nothing or by a separator is read whole. */
  lemma {:induction false} WordBeforeSep(w: string, r: string)
    requires NoSep(w)
    requires r == [] || IsSep(r[0])
    ensures Word(w + r) == w
    decreases |w|
  {
    if w != [] {
      assert (w + r)[1..] == w[1..] + r;
      WordBeforeSep(w[1..], r);
    }
  }

  /** A word followed by nothing or by a separator is the first token. */
  lemma TokensWordStep(w: string, r: string)
    requires w != [] && NoSep(w)
    requires r == [] || IsSep(r[0])
    ensures Tokens(w + r) == [w] + Tokens(r)
  {
    WordBeforeSep(w, r);
    assert (w + r)[0] == w[0];
    assert (w + r)[|w|..] == r;
  }

  /** Separators behind change nothing. */
  lemma {:induction false} TokensBeforeSeps(t: string, g: string)
    requires AllSep(g)
    ensures Tokens(t + g) == Tokens(t)
    decreases |t|
  {
    if t == [] {
      TokensAfterSeps(g, []);
      assert g + [] == g;
      assert [] + g == g;
    } else if IsSep(t[0]) {
      assert (t + g)[1..] == t[1..] + g;
      TokensBeforeSeps(t[1..], g);
    } else {
      var w := Word(t);
      var r := t[|w|..];
      assert t == w + r;
      assert t + g == w + (r + g);
      TokensWordStep(w, r);
      TokensWordStep(w, r + g);
      TokensBeforeSeps(r, g);
    }
  }

  /** Leading separators can be skipped. */
  lemma {:induction false} TokensSkipSeps(s: string)
    ensures Tokens(s[SepRun(s)..]) == Tokens(s)
    decreases |s|
  {
    if SepRun(s) > 0 {
      TokensSkipSeps(s[1..]);
      assert s[1..][SepRun(s[1..])..] == s[SepRun(s)..];
    }
  }

  /** Splitting at separator runs and dropping the empty pieces reads the tokens. */
  lemma {:induction false} SplitRunsTokens(t: string)
    ensures DropEmpty(SplitRuns(t)) == Tokens(t)
    decreases |t|
  {
    var w := Word(t);
    if |w| == |t| {
      assert w == t;
      if t != [] {
        assert t[|w|..] == [];
      }
    } else {
      var u := t[|w|..];
      var rest := u[SepRun(u)..];
      SplitRunsTokens(rest);
      TokensSkipSeps(u);
      assert SplitRuns(t) == [w] + SplitRuns(rest);
      assert DropEmpty(SplitRuns(t)) == (if w == [] then [] else [w]) + DropEmpty(SplitRuns(rest));
      if w == [] {
        assert u == t;
      }
    }
  }

  /** Leading white space can be stripped. */
  lemma TrimStartTokens(s: string)
    ensures Tokens(TrimStart(s)) == Tokens(s)
  {
    var u := TrimStart(s);
    var head := s[..|s| - |u|];
    assert s == head + u;
    assert AllSep(head);
    TokensAfterSeps(head, u);
  }

  /** Trailing white space can be stripped. */
  lemma TrimEndTokens(u: string)
    ensures Tokens(TrimEnd(u)) == Tokens(u)
  {
    var t := TrimEnd(u);
    var tail := u[|t|..];
    assert u == t + tail;
    assert AllSep(tail);
    TokensBeforeSeps(t, tail);
  }

  /** Stripping white space at both ends keeps the tokens. */
  lemma StripTokens(s: string)
    ensures Tokens(Strip(s)) == Tokens(s)
  {
    TrimStartTokens(s);
    TrimEndTokens(TrimStart(s));
  }

  /** `data_split` reads the maximal runs of non-separators. */
  lemma DataSplitIsTokens(s: string)
    ensures DataSplit(s) == Tokens(s)
  {
    if s == [] {
    } else if IsAllSpace(s) {
      TokensBeforeSeps([], s);
      assert [] + s == s;
    } else {
      SplitRunsTokens(Strip(s));
      StripTokens(s);
    }
  }

  /**
   * gaps[0] + words[0] + gaps[1] + ... + words[k-1] + gaps[k].
   */
  function Weave(gaps: seq<string>, words: seq<string>): (s: string)
    requires |gaps| == |words| + 1
    decreases |words|
  {
    if words == [] then gaps[0] else gaps[0] + words[0] + Weave(gaps[1..], words[1..])
  }

  /**
   * s is written as separator-only gaps around non-empty separator-free
   * words, with at least one separator between two words.
   */
  ghost predicate Layout(s: string, gaps: seq<string>, words: seq<string>)
  {
    && |gaps| == |words| + 1
    && (forall i :: 0 <= i < |gaps| ==> AllSep(gaps[i]))
    && (forall i :: 0 < i < |words| ==> gaps[i] != [])
    && (forall i :: 0 <= i < |words| ==> words[i] != [] && NoSep(words[i]))
    && s == Weave(gaps, words)
  }

  /** The tail of a layout is a layout of what follows its first word. */
  lemma LayoutTail(s: string, gaps: seq<string>, words: seq<string>)
    requires Layout(s, gaps, words) && words != []
    ensures Layout(Weave(gaps[1..], words[1..]), gaps[1..], words[1..])
  {
  }

  /** Any layout's words are the tokens: a layout decides its words. */
  lemma {:induction false} LayoutTokens(s: string, gaps: seq<string>, words: seq<string>)
    requires Layout(s, gaps, words)
    ensures words == Tokens(s)
    decreases |words|
  {
    if words == [] {
      TokensBeforeSeps([], gaps[0]);
      assert [] + gaps[0] == gaps[0];
    } else {
      var w := words[0];
      var r := Weave(gaps[1..], words[1..]);
      assert s == gaps[0] + (w + r);
      TokensAfterSeps(gaps[0], w + r);
      if |words| > 1 {
        assert r == gaps[1] + words[1] + Weave(gaps[2..], words[2..]);
        assert r[0] == gaps[1][0];
      } else {
        assert r == gaps[1];
      }
      TokensWordStep(w, r);
      LayoutTail(s, gaps, words);
      LayoutTokens(r, gaps[1..], words[1..]);
    }
  }

  /** A leading separator joins the first gap. */
  lemma WeaveAfterSep(c: string, gaps: seq<string>, words: seq<string>)
    requires |gaps| == |words| + 1
    ensures Weave([c + gaps[0]] + gaps[1..], words) == c + Weave(gaps, words)
  {
    var g := [c + gaps[0]] + gaps[1..];
    assert g[1..] == gaps[1..];
    if words != [] {
      assert Weave(g, words) == (c + gaps[0]) + words[0] + Weave(gaps[1..], words[1..]);
    }
  }

  /** A separator in front of a layout widens its first gap. */
  lemma LayoutAfterSep(c: char, t: string, gaps: seq<string>, words: seq<string>)
    requires IsSep(c) && Layout(t, gaps, words)
    ensures Layout([c] + t, [[c] + gaps[0]] + gaps[1..], words)
  {
    var g := [[c] + gaps[0]] + gaps[1..];
    WeaveAfterSep([c], gaps, words);
    assert AllSep(g[0]);
    assert forall i :: 1 <= i < |g| ==> g[i] == gaps[i];
  }

  /** A word in front of a layout that starts with a separator becomes its first word. */
  lemma LayoutAfterWord(w: string, r: string, gaps: seq<string>, words: seq<string>)
    requires w != [] && NoSep(w) && (r == [] || IsSep(r[0]))
    requires Layout(r, gaps, words)
    ensures Layout(w + r, [[]] + gaps, [w] + words)
  {
    var g := [[]] + gaps;
    var ws := [w] + words;
    assert g[1..] == gaps && ws[1..] == words;
    assert Weave(g, ws) == [] + w + Weave(gaps, words);
  }

  /** The tokens have a layout. */
  lemma {:induction false} TokensLayout(s: string) returns (gaps: seq<string>)
    ensures Layout(s, gaps, Tokens(s))
    decreases |s|
  {
    if s == [] {
      gaps := [[]];
    } else if IsSep(s[0]) {
      var g := TokensLayout(s[1..]);
      LayoutAfterSep(s[0], s[1..], g, Tokens(s[1..]));
      assert [s[0]] + s[1..] == s;
      gaps := [[s[0]] + g[0]] + g[1..];
    } else {
      var w := Word(s);
      var r := s[|w|..];
      var g := TokensLayout(r);
      LayoutAfterWord(w, r, g, Tokens(r));
      assert s == w + r;
      gaps := [[]] + g;
    }
  }

  /**
   * `data_split(s)` returns exactly the words of a layout of s: such a layout
   * exists, and every layout of s has those words.
   */
  lemma DataSplitLayout(s: string, gaps: seq<string>, words: seq<string>)
    ensures exists g :: Layout(s, g, DataSplit(s))
    ensures Layout(s, gaps, words) ==> words == DataSplit(s)
  {
    DataSplitIsTokens(s);
    var g := TokensLayout(s);
    if Layout(s, gaps, words) {
      LayoutTokens(s, gaps, words);
    }
  }

  /** Every token is non-empty and holds no comma and no white space. */
  lemma DataSplitTokensClean(s: string)
    ensures forall i :: 0 <= i < |DataSplit(s)| ==> DataSplit(s)[i] != [] && NoSep(DataSplit(s)[i])
  {
    DataSplitIsTokens(s);
    var g := TokensLayout(s);
  }

  /** Text with no token is made of separators only. */
  lemma {:induction false} NoTokensAllSep(s: string)
    requires Tokens(s) == []
    ensures AllSep(s)
    decreases |s|
  {
    if s != [] {
      NoTokensAllSep(s[1..]);
    }
  }

  /** Empty, blank and separator-only input, and only such input, gives no token. */
  lemma DataSplitEmpty(s: string)
    ensures DataSplit(s) == [] <==> AllSep(s)
  {
    DataSplitIsTokens(s);
    if AllSep(s) {
      TokensBeforeSeps([], s);
      assert [] + s == s;
    } else if Tokens(s) == [] {
      NoTokensAllSep(s);
    }
  }

  /** Separators added at either end change nothing. */
  lemma DataSplitOuterSeps(g: string, s: string, h: string)
    requires AllSep(g) && AllSep(h)
    ensures DataSplit(g + s + h) == DataSplit(s)
  {
    var t := s + h;
    TokensBeforeSeps(s, h);
    TokensAfterSeps(g, t);
    assert g + s + h == g + t;
    DataSplitIsTokens(g + t);
    DataSplitIsTokens(s);
  }

  /** `sep.join(words)`. */
  function Join(words: seq<string>, sep: string): (s: string)
    decreases |words|
  {
    if words == [] then []
    else if |words| == 1 then words[0]
    else words[0] + sep + Join(words[1..], sep)
  }

  /** A word, then a run of separators: the word is the first token. */
  lemma TokensWordThenGap(w: string, g: string, r: string)
    requires w != [] && NoSep(w) && g != [] && AllSep(g)
    ensures Tokens(w + g + r) == [w] + Tokens(r)
  {
    assert w + g + r == w + (g + r);
    TokensWordStep(w, g + r);
    TokensAfterSeps(g, r);
  }

  /** Clean words joined with commas read back as the same words. */
  lemma {:induction false} JoinTokens(words: seq<string>)
    requires forall i :: 0 <= i < |words| ==> words[i] != [] && NoSep(words[i])
    ensures Tokens(Join(words, ",")) == words
    decreases |words|
  {
    if |words| == 1 {
      TokensWordStep(words[0], []);
      assert words[0] + [] == words[0];
    } else if |words| > 1 {
      assert AllSep(",");
      TokensWordThenGap(words[0], ",", Join(words[1..], ","));
      JoinTokens(words[1..]);
    }
  }

  /**
   * Joining the tokens with commas and splitting again gives the same tokens
   * back.
   */
  lemma DataSplitJoinRoundTrip(s: string)
    ensures DataSplit(Join(DataSplit(s), ",")) == DataSplit(s)
  {
    var words := DataSplit(s);
    DataSplitTokensClean(s);
    JoinTokens(words);
    DataSplitIsTokens(Join(words, ","));
  }

  /** `"1, 2  3,,4"` gives four tokens: repeated separators count once. */
  lemma DataSplitRepeatedSeps(s: string)
    requires s == "1, 2  3,,4"
    ensures DataSplit(s) == ["1", "2", "3", "4"]
  {
    var gaps := ["", ", ", "  ", ",,", ""];
    var words := ["1", "2", "3", "4"];
    assert Weave(gaps, words) == s;
    assert AllSep(", ") && AllSep("  ") && AllSep(",,") && AllSep("");
    assert NoSep("1") && NoSep("2") && NoSep("3") && NoSep("4");
    assert Layout(s, gaps, words);
    DataSplitLayout(s, gaps, words);
  }

  /** `",1,2,3,"` gives three tokens: separators at the ends are dropped. */
  lemma DataSplitOuterCommas(s: string)
    requires s == ",1,2,3,"
    ensures DataSplit(s) == ["1", "2", "3"]
  {
    var inner := Join(["1", "2", "3"], ",");
    assert s == "," + inner + ",";
    assert AllSep(",");
    JoinTokens(["1", "2", "3"]);
    DataSplitIsTokens(inner);
    DataSplitOuterSeps(",", inner, ",");
  }

  /** `"1,hello,3.0"` keeps `hello`: no number is checked. */
  lemma DataSplitKeepsWords(s: string)
    requires s == "1,hello,3.0"
    ensures DataSplit(s) == ["1", "hello", "3.0"]
  {
    assert NoSep("hello") && NoSep("3.0");
    JoinTokens(["1", "hello", "3.0"]);
    assert Join(["1", "hello", "3.0"], ",") == s;
    DataSplitIsTokens(s);
  }

  /** What a validator's `__call__` does: return, or raise `ValidationError(message)`. */
  datatype Verdict = Pass | Fail(message: string)

  /** A message argument counts as given when it is not `None` and not empty (`if not message`). */
  predicate Given(message: Option<string>)
  {
    message.Some? && message.value != []
  }

  /** The number of tokens in a field's text. */
  function Count(data: string): nat
  {
    |DataSplit(data)|
  }

  /** A `DataLength(min, max, message)` validator; `max == -1` means no upper bound. */
  datatype DataLength = DataLength(min: int, max: int, message: string)

  /** `DataLength.__init__`: the default message names both bounds as `%i` does. */
  function NewDataLength(min: int, max: int, message: Option<string>): (v: DataLength)
    ensures v.min == min && v.max == max
    ensures Given(message) ==> v.message == message.value
    ensures !Given(message) ==>
              v.message == "Data must have between " + IntToString(min) + " and " + IntToString(max) + " values."
  {
    DataLength(min, max,
      if Given(message) then message.value
      else "Data must have between " + IntToString(min) + " and " + IntToString(max) + " values.")
  }

  /** `DataLength.__call__` on a field holding `data`. */
  function CheckDataLength(v: DataLength, data: string): (r: Verdict)
    ensures r.Pass? <==> v.min <= Count(data) && (v.max == -1 || Count(data) <= v.max)
    ensures r.Fail? ==> r.message == v.message
  {
    var length := Count(data);
    if length < v.min || (v.max != -1 && length > v.max) then Fail(v.message) else Pass
  }

  /**
   * Both bounds are inclusive, `max == -1` drops the upper one, and only the
   * token count matters: surrounding separators never change the verdict.
   */
  lemma DataLengthBounds(v: DataLength, data: string, g: string, h: string)
    requires AllSep(g) && AllSep(h)
    ensures Count(data) == v.min && (v.max == -1 || v.min <= v.max) ==> CheckDataLength(v, data).Pass?
    ensures Count(data) == v.max && v.min <= v.max ==> CheckDataLength(v, data).Pass?
    ensures v.max == -1 ==> (CheckDataLength(v, data).Pass? <==> v.min <= Count(data))
    ensures CheckDataLength(v, g + data + h) == CheckDataLength(v, data)
  {
    DataSplitOuterSeps(g, data, h);
  }

  /** A `DataLengthEqual(fieldname, message)` validator. */
  datatype DataLengthEqual = DataLengthEqual(fieldname: string, message: string)

  /** The field name as the default message shows it: underscores become spaces, then `title()`. */
  function FieldLabel(fieldname: string): (shown: string)
    ensures |shown| == |fieldname|
  {
    Title(ReplaceChar(fieldname, '_', ' '))
  }

  /**
   * The label holds no underscore, and is what `title()` makes of the name
   * with spaces for underscores: labelling it again changes nothing.
   */
  lemma FieldLabelClean(fieldname: string)
    ensures forall i :: 0 <= i < |fieldname| ==> FieldLabel(fieldname)[i] != '_'
    ensures FieldLabel(FieldLabel(fieldname)) == FieldLabel(fieldname)
  {
    var t := ReplaceChar(fieldname, '_', ' ');
    var shown := FieldLabel(fieldname);
    forall i | 0 <= i < |fieldname|
      ensures shown[i] != '_'
    {
      TitleAt(t, i);
    }
    assert ReplaceChar(shown, '_', ' ') == shown;
    TitleIdempotent(t);
  }

  /** `DataLengthEqual.__init__`. */
  function NewDataLengthEqual(fieldname: string, message: Option<string>): (v: DataLengthEqual)
    ensures v.fieldname == fieldname
    ensures Given(message) ==> v.message == message.value
    ensures !Given(message) ==>
              v.message == "Data must be the same length as the \"" + FieldLabel(fieldname) + "\" field."
  {
    DataLengthEqual(fieldname,
      if Given(message) then message.value
      else "Data must be the same length as the \"" + FieldLabel(fieldname) + "\" field.")
  }

  /** The error raised when the form has no field of that name. */
  function MissingFieldMessage(fieldname: string): string
  {
    "Invalid field name '" + fieldname + "' provided to DataLengthEqual validator."
  }

  /**
   * `DataLengthEqual.__call__` on a field holding `data`, in a form that maps
   * its field names to their text.
   */
  function CheckDataLengthEqual(v: DataLengthEqual, form: map<string, string>, data: string): (r: Verdict)
    ensures v.fieldname !in form ==> r == Fail(MissingFieldMessage(v.fieldname))
    ensures v.fieldname in form ==>
              (r.Pass? <==> Count(data) == Count(form[v.fieldname])) &&
              (r.Fail? ==> r.message == v.message)
  {
    if v.fieldname !in form then Fail(MissingFieldMessage(v.fieldname))
    else
      var currentLength := Count(data);
      var otherLength := Count(form[v.fieldname]);
      if currentLength != otherLength then Fail(v.message) else Pass
  }

  /**
   * Comparing field a against b passes exactly when comparing b against a
   * does; two fields with no tokens pass.
   */
  lemma DataLengthEqualSymmetric(form: map<string, string>, a: string, b: string, ma: string, mb: string)
    requires a in form && b in form
    ensures CheckDataLengthEqual(DataLengthEqual(a, ma), form, form[b]).Pass?
        <==> CheckDataLengthEqual(DataLengthEqual(b, mb), form, form[a]).Pass?
    ensures AllSep(form[a]) && AllSep(form[b]) ==> CheckDataLengthEqual(DataLengthEqual(a, ma), form, form[b]).Pass?
  {
    DataSplitEmpty(form[a]);
    DataSplitEmpty(form[b]);
  }

  /** A `DataFloat(message)` validator. */
  datatype DataFloat = DataFloat(message: string)

  /** `DataFloat.__init__`. */
  function NewDataFloat(message: Option<string>): (v: DataFloat)
    ensures Given(message) ==> v.message == message.value
    ensures !Given(message) ==> v.message == "All data points must be numbers (e.g., 3.14 or -42)."
  {
    DataFloat(if Given(message) then message.value else "All data points must be numbers (e.g., 3.14 or -42).")
  }

  /**
   * `DataFloat.__call__` on a field holding `data`. `isNumber` is the
   * conversion of one token to a float succeeding.
   */
  function CheckDataFloat(v: DataFloat, data: string, isNumber: string -> bool): (r: Verdict)
    ensures r.Pass? <==> forall i :: 0 <= i < Count(data) ==> isNumber(DataSplit(data)[i])
    ensures r.Fail? ==> r.message == v.message
  {
    var dataList := DataSplit(data);
    if dataList == [] then Pass
    else if AllNumbers(dataList, isNumber) then Pass
    else Fail(v.message)
  }

  /** Converting the whole list succeeds when every token converts. */
  predicate AllNumbers(tokens: seq<string>, isNumber: string -> bool)
  {
    forall i :: 0 <= i < |tokens| ==> isNumber(tokens[i])
  }

  /**
   * Empty, blank and separator-only data passes whatever counts as a number;
   * one token that is not a number makes it fail.
   */
  lemma DataFloatBlankPasses(v: DataFloat, data: string, isNumber: string -> bool)
    ensures AllSep(data) ==> CheckDataFloat(v, data, isNumber) == Pass
    ensures (exists i :: 0 <= i < Count(data) && !isNumber(DataSplit(data)[i])) ==>
              CheckDataFloat(v, data, isNumber) == Fail(v.message)
  {
    DataSplitEmpty(data);
  }
}
