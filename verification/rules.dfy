/** The small decision rules of the importer: `to_bool`, `to_int`,
    `check_for_required_columns` and `Setup.to_string_vocab_value`. */
module Rules {
  import opened Wrappers
  import opened Text
  import opened Worksheet

  /** The values these rules are handed: a cell's text, or a Python default such as
      `None`, `0` or `False` from `row.get(name, default)`. */
  datatype PyValue = PyNone | PyBool(b: bool) | PyInt(n: int) | PyText(s: string)

  /** `int(x)`: a bool counts as 0 or 1, text is parsed, `None` cannot be converted. */
  function IntOf(v: PyValue): Option<int>
  {
    match v
    case PyNone => None
    case PyBool(b) => Some(if b then 1 else 0)
    case PyInt(n) => Some(n)
    case PyText(s) => ParseInt(s)
  }

  // ---------------------------------------------------------------- to_bool

  /** `to_bool(value)`: text is lower-cased and, when `int()` accepts it, replaced by the
      integer; the result is true for the text `'true'` and for the integer 1. */
  function ToBool(value: PyValue): (b: bool)
    ensures value.PyText? ==>
      (b <==> ParseInt(value.s) == Some(1) || (ParseInt(value.s).None? && Lower(value.s) == "true"))
    ensures !value.PyText? ==> (b <==> IntOf(value) == Some(1))
  {
    match value
    case PyText(s) =>
      var low := Lower(s);
      ParseIntIgnoresCase(s);
      (match ParseInt(low)
       case Some(n) => n == 1
       case None => low == "true")
    case _ => IntOf(value) == Some(1)
  }

  lemma LowerOfIntText(n: int)
    ensures Lower(IntToString(n)) == IntToString(n)
  {
    var s := IntToString(n);
    forall i | 0 <= i < |s| ensures LowerChar(s[i]) == s[i] {
      if n < 0 {
        assert i == 0 || s[i] == NatToString(-n)[i - 1];
      }
    }
  }

  /** The printed form of an integer is true exactly for 1. */
  lemma ToBoolOfIntText(n: int)
    ensures ToBool(PyText(IntToString(n))) <==> n == 1
  {
    ParseIntRoundTrip(n);
    LowerOfIntText(n);
  }

  lemma LowerUpper(s: string)
    ensures Lower(Upper(s)) == Lower(s)
  {
  }

  /** Upper-casing a text does not change its truth value. */
  lemma ToBoolIgnoresCase(s: string)
    ensures ToBool(PyText(Upper(s))) == ToBool(PyText(s))
  {
    LowerUpper(s);
    ParseIntIgnoresCase(Upper(s));
    ParseIntIgnoresCase(s);
  }

  /** `int()` refuses a word. */
  lemma ParseIntOfWord(s: string)
    requires |s| > 0 && 'a' <= s[0] <= 'z' && 'a' <= s[|s| - 1] <= 'z'
    ensures ParseInt(s) == None
  {
    assert Strip(s, Whitespace) == s;
    assert !IsDigit(s[0]);
  }

  /** Every spelling of 'true', in any case, is true. */
  lemma ToBoolOfTrueText(s: string)
    requires Lower(s) == "true"
    ensures ToBool(PyText(s))
  {
    ParseIntOfWord(Lower(s));
    ParseIntIgnoresCase(s);
  }

  /** Case does not matter for the text 'true' either. */
  lemma UpperCaseTrue()
    ensures ToBool(PyText("TRUE"))
  {
    assert Lower("TRUE") == "true";
    ToBoolOfTrueText("TRUE");
  }

  // ---------------------------------------------------------------- to_int

  const IntTypeError: string := "int() argument must be a string or a number, not 'NoneType'"

  /** `to_int(value, default)`: `int(value)`; on a `ValueError` `int(default)`, and 0 when
      that fails too. `int(None)` raises a `TypeError`, which is not caught. */
  function ToInt(value: PyValue, default: PyValue): (r: Result<int, string>)
    ensures r.Err? <==> value.PyNone?
    ensures IntOf(value).Some? ==> r == Ok(IntOf(value).value)
    ensures value.PyText? && IntOf(value).None? ==>
      r == Ok(if IntOf(default).Some? then IntOf(default).value else 0)
  {
    match value
    case PyNone => Err(IntTypeError)
    case PyText(s) =>
      if ParseInt(s).Some? then Ok(ParseInt(s).value)
      else if IntOf(default).Some? then Ok(IntOf(default).value)
      else Ok(0)
    case _ => Ok(IntOf(value).value)
  }

  /** A printed integer converts back to itself, whatever the default. */
  lemma ToIntRoundTrip(n: int, default: PyValue)
    ensures ToInt(PyText(IntToString(n)), default) == Ok(n)
  {
    ParseIntRoundTrip(n);
  }

  /** An empty cell takes the default. */
  lemma ToIntOfEmptyCell(default: PyValue)
    ensures ToInt(PyText(""), default) == Ok(if IntOf(default).Some? then IntOf(default).value else 0)
  {
    assert Strip("", Whitespace) == "";
  }

  // ---------------------------------------------------------------- required columns

  function MissingColumnMessage(name: string, column: string): string
  {
    name + " has no '" + column + "' column."
  }

  /** `required[i]` is the first required column that is missing or empty. */
  predicate FirstMissing(data: Record, required: seq<string>, i: int)
  {
    && 0 <= i < |required|
    && !Truthy(Lookup(data, required[i]))
    && (forall j :: 0 <= j < i ==> Truthy(Lookup(data, required[j])))
  }

  /** The first missing column of the tail is, one place on, that of the whole list when
      the head column is present. */
  lemma FirstMissingShift(data: Record, required: seq<string>, k: nat)
    requires 0 < |required| && Truthy(Lookup(data, required[0]))
    requires FirstMissing(data, required[1..], k)
    ensures FirstMissing(data, required, k + 1) && required[k + 1] == required[1..][k]
  {
    forall j | 0 < j < k + 1 ensures Truthy(Lookup(data, required[j])) {
      assert required[j] == required[1..][j - 1];
    }
  }

  /** `check_for_required_columns(name, data, required)`: the first required column whose
      value is missing or empty raises; `None` here means nothing was raised. */
  function CheckForRequiredColumns(name: string, data: Record, required: seq<string>): (r: Option<string>)
    ensures r.None? <==> forall i :: 0 <= i < |required| ==> Truthy(Lookup(data, required[i]))
    ensures r.Some? ==>
      exists i :: FirstMissing(data, required, i) && r.value == MissingColumnMessage(name, required[i])
    decreases |required|
  {
    if required == [] then None
    else if !Truthy(Lookup(data, required[0])) then
      assert FirstMissing(data, required, 0);
      Some(MissingColumnMessage(name, required[0]))
    else
      var rest := required[1..];
      var r := CheckForRequiredColumns(name, data, rest);
      assert forall i :: 1 <= i < |required| ==> required[i] == rest[i - 1];
      if r.Some? then
        var k :| FirstMissing(data, rest, k) && r.value == MissingColumnMessage(name, rest[k]);
        FirstMissingShift(data, required, k);
        r
      else r
  }

  // ---------------------------------------------------------------- vocabulary values

  /** The vocabulary as a dict: pairs in order, a later pair for the same key wins. */
  function VocabularyDict(items: seq<(string, string)>): (d: map<string, string>)
    ensures forall k :: k in d <==> exists i :: 0 <= i < |items| && items[i].0 == k
    decreases |items|
  {
    if items == [] then map[]
    else
      var d := VocabularyDict(items[..|items| - 1]);
      assert forall i :: 0 <= i < |items| - 1 ==> items[..|items| - 1][i] == items[i];
      d[items[|items| - 1].0 := items[|items| - 1].1]
  }

  /** No later pair has the key of pair `i`: its value is the one the dict keeps. */
  predicate LastOfKey(items: seq<(string, string)>, i: int)
    requires 0 <= i < |items|
  {
    forall j :: i < j < |items| ==> items[j].0 != items[i].0
  }

  /** A repeated key keeps the value of its last pair, as the dict comprehension does. */
  lemma VocabularyDictValues(items: seq<(string, string)>)
    ensures forall i :: 0 <= i < |items| && LastOfKey(items, i) ==> VocabularyDict(items)[items[i].0] == items[i].1
  {
    forall i | 0 <= i < |items| && LastOfKey(items, i)
      ensures VocabularyDict(items)[items[i].0] == items[i].1
    {
      VocabularyDictValueAt(items, i);
    }
  }

  lemma {:induction false} VocabularyDictValueAt(items: seq<(string, string)>, i: int)
    requires 0 <= i < |items| && LastOfKey(items, i)
    ensures VocabularyDict(items)[items[i].0] == items[i].1
    decreases |items|
  {
    var n := |items| - 1;
    var init := items[..n];
    assert VocabularyDict(items) == VocabularyDict(init)[items[n].0 := items[n].1];
    if i < n {
      assert init[i] == items[i];
      assert LastOfKey(init, i) by {
        forall j | i < j < |init| ensures init[j].0 != init[i].0 {
          assert init[j] == items[j];
        }
      }
      VocabularyDictValueAt(init, i);
    }
  }

  /** A key matches when it or its value equals the wanted text, ignoring case. */
  predicate Matches(key: string, val: string, value: string)
  {
    Lower(key) == Lower(value) || Lower(val) == Lower(value)
  }

  /** The first key, in the dict's iteration order `order`, that matches. */
  function FirstMatch(d: map<string, string>, order: seq<string>, value: string): (r: Option<string>)
    ensures r.Some? ==> r.value in d && Matches(r.value, d[r.value], value) && r.value in order
    ensures r.None? <==> forall i :: 0 <= i < |order| && order[i] in d ==> !Matches(order[i], d[order[i]], value)
    ensures r.Some? ==> exists i :: IsFirstMatch(d, order, value, i) && order[i] == r.value
    decreases |order|
  {
    if order == [] then None
    else if order[0] in d && Matches(order[0], d[order[0]], value) then
      assert IsFirstMatch(d, order, value, 0);
      Some(order[0])
    else
      var r := FirstMatch(d, order[1..], value);
      assert forall i :: 1 <= i < |order| ==> order[i] == order[1..][i - 1];
      if r.Some? then
        var k :| IsFirstMatch(d, order[1..], value, k) && order[1..][k] == r.value;
        assert IsFirstMatch(d, order, value, k + 1);
        r
      else r
  }

  /** `order[i]` is a matching key and no key before it in `order` matches. */
  predicate IsFirstMatch(d: map<string, string>, order: seq<string>, value: string, i: int)
  {
    && 0 <= i < |order| && order[i] in d && Matches(order[i], d[order[i]], value)
    && forall j :: 0 <= j < i && order[j] in d ==> !Matches(order[j], d[order[j]], value)
  }

  /** `to_string_vocab_value(field, value)` for a vocabulary given as items; `order` is the
      order in which the dict built from them is iterated. */
  function ToStringVocabValue(fieldName: string, items: seq<(string, string)>, order: seq<string>, value: string)
    : (r: Result<string, string>)
    ensures items == [] ==> r == Err("Empty vocabulary for " + fieldName)
    ensures r.Ok? ==> r.value in VocabularyDict(items) && Matches(r.value, VocabularyDict(items)[r.value], value)
    ensures r.Ok? ==> exists i :: IsFirstMatch(VocabularyDict(items), order, value, i) && order[i] == r.value
  {
    if items == [] then Err("Empty vocabulary for " + fieldName)
    else
      match FirstMatch(VocabularyDict(items), order, value)
      case Some(k) => Ok(k)
      case None => Err("Vocabulary entry not found")
  }

  /** No key and no value of the vocabulary matches the wanted text. */
  predicate NoneMatches(d: map<string, string>, value: string)
  {
    forall k :: k in d ==> !Matches(k, d[k], value)
  }

  /** When `order` lists every key, the lookup fails exactly when no key and no value
      matches: it never misses an entry. */
  lemma VocabularyNotFoundIff(fieldName: string, items: seq<(string, string)>, order: seq<string>, value: string)
    requires items != []
    requires forall k :: k in VocabularyDict(items) ==> k in order
    ensures ToStringVocabValue(fieldName, items, order, value) == Err("Vocabulary entry not found")
        <==> NoneMatches(VocabularyDict(items), value)
  {
    var d := VocabularyDict(items);
    var r := FirstMatch(d, order, value);
    if r.None? {
      forall k | k in d ensures !Matches(k, d[k], value) {
        var i :| 0 <= i < |order| && order[i] == k;
      }
    } else {
      assert r.value in d && Matches(r.value, d[r.value], value);
    }
  }

  /** A repeated key keeps only its last value: with the pairs `a: X` and then `a: Y`,
      the text `x` is not found. */
  lemma RepeatedKeyKeepsLastValue(fieldName: string)
    ensures ToStringVocabValue(fieldName, [("a", "X"), ("a", "Y")], ["a"], "x") == Err("Vocabulary entry not found")
  {
    var items := [("a", "X"), ("a", "Y")];
    assert LastOfKey(items, 1);
    assert VocabularyDict(items)["a"] == "Y";
    assert Lower("a") == "a" && Lower("Y") == "y" && Lower("x") == "x";
  }

  /** The lookup is case-insensitive: the wanted text may be given in any case. */
  lemma VocabularyIgnoresCase(fieldName: string, items: seq<(string, string)>, order: seq<string>, value: string)
    ensures ToStringVocabValue(fieldName, items, order, Upper(value)) == ToStringVocabValue(fieldName, items, order, value)
  {
    LowerUpper(value);
    var d := VocabularyDict(items);
    assert forall k, v :: Matches(k, v, Upper(value)) == Matches(k, v, value);
    FirstMatchSame(d, order, Upper(value), value);
  }

  lemma {:induction false} FirstMatchSame(d: map<string, string>, order: seq<string>, a: string, b: string)
    requires Lower(a) == Lower(b)
    ensures FirstMatch(d, order, a) == FirstMatch(d, order, b)
    decreases |order|
  {
    if order != [] {
      FirstMatchSame(d, order[1..], a, b);
    }
  }
}
