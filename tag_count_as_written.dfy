/** The tag counter of `generateTags` as the code is written: the table is a
    plain object, so a key it does not hold yet is looked up on the object
    prototype. Among the strings the tag pattern can match (lower-case
    letters only), `constructor` is the one name the prototype carries: its
    first lookup yields the `Object` function instead of `undefined`, and the
    count becomes text. `IdeaEngine.Frequencies` is the table the code means. */
module TagCountAsWritten {
  import opened Types
  import IdeaEngine

  /** The values the table and its lookups can hold. */
  datatype JsValue = Undefined | NotANumber | Number(n: int) | Text(s: string) | ObjectConstructor

  /** How the `Object` function reads when it is turned into text. */
  const ObjectSource: string := "function Object() { [native code] }"

  /** `freq[key]` on a plain object: its own value, else the prototype's. */
  function Get(freq: map<string, JsValue>, key: string): (v: JsValue)
    ensures key in freq ==> v == freq[key]
    ensures key !in freq ==> (v != Undefined <==> key == "constructor")
  {
    if key in freq then freq[key]
    else if key == "constructor" then ObjectConstructor
    else Undefined
  }

  predicate Truthy(v: JsValue) {
    match v
    case Undefined => false
    case NotANumber => false
    case Number(n) => n != 0
    case Text(s) => s != []
    case ObjectConstructor => true
  }

  /** `(v || 0) + 1`: a number is incremented; text, and the `Object` function as text, gets "1" appended. */
  function Increment(v: JsValue): (r: JsValue)
    ensures v.Number? && v.n >= 0 ==> r == Number(v.n + 1)
    ensures !Truthy(v) ==> r == Number(1)
    ensures v == ObjectConstructor ==> r == Text(ObjectSource + "1")
    ensures v.Text? && v.s != [] ==> r == Text(v.s + "1")
  {
    if !Truthy(v) then Number(1)
    else match v
      case Number(n) => Number(n + 1)
      case Text(s) => Text(s + "1")
      case ObjectConstructor => Text(ObjectSource + "1")
      case _ => NotANumber
  }

  /** The value as a number, `None` for NaN. The only text the table can hold
      starts with `function`, which converts to NaN. */
  function NumberOf(v: JsValue): Option<int> {
    match v
    case Number(n) => Some(n)
    case _ => None
  }

  /** `(a, b) => freq[b] - freq[a]`, where NaN counts as 0 ("equal"). */
  function CompareAsWritten(freq: map<string, JsValue>, a: string, b: string): (r: int)
    ensures Get(freq, a).Number? && Get(freq, b).Number? ==> r == Get(freq, b).n - Get(freq, a).n
    ensures !(Get(freq, a).Number? && Get(freq, b).Number?) ==> r == 0
  {
    match (NumberOf(Get(freq, b)), NumberOf(Get(freq, a)))
    case (Some(x), Some(y)) => x - y
    case _ => 0
  }

  /** The table the counting loop builds as written. */
  function FrequenciesAsWritten(s: seq<string>): (f: map<string, JsValue>)
    ensures forall w :: w in f <==> w in s
  {
    if s == [] then map[]
    else
      var f := FrequenciesAsWritten(s[..|s| - 1]);
      var w := s[|s| - 1];
      assert s == s[..|s| - 1] + [w];
      f[w := Increment(Get(f, w))]
  }

  /** Without the word `constructor`, the table as written holds exactly the counts of the intended table. */
  lemma {:induction false} AsWrittenAgreesWithoutConstructor(s: seq<string>)
    requires "constructor" !in s
    ensures forall w :: w in s ==> Get(FrequenciesAsWritten(s), w) == Number(IdeaEngine.CountOf(IdeaEngine.Frequencies(s), w))
    decreases |s|
  {
    if s != [] {
      var p := s[..|s| - 1];
      assert s == p + [s[|s| - 1]];
      assert "constructor" !in p;
      AsWrittenAgreesWithoutConstructor(p);
    }
  }

  /** The table as written for the example words, after each of them. */
  lemma ExampleTableAsWritten()
    ensures FrequenciesAsWritten(["hiking"]) == map["hiking" := Number(1)]
    ensures FrequenciesAsWritten(["hiking", "constructor"])
         == map["hiking" := Number(1), "constructor" := Text(ObjectSource + "1")]
    ensures FrequenciesAsWritten(["hiking", "constructor", "mind", "mind"])
         == map["hiking" := Number(1), "constructor" := Text(ObjectSource + "1"), "mind" := Number(2)]
  {
    var s := ["hiking", "constructor", "mind", "mind"];
    assert s[..3] == ["hiking", "constructor", "mind"];
    assert s[..3][..2] == ["hiking", "constructor"];
    assert s[..3][..2][..1] == ["hiking"];
    assert ["hiking"][..0] == [];
  }

  /** With `constructor` among the words, its count is text, not a number. */
  lemma ConstructorCountIsText()
    ensures Get(FrequenciesAsWritten(["hiking", "constructor", "mind", "mind"]), "constructor")
         == Text(ObjectSource + "1")
  {
    ExampleTableAsWritten();
  }

  /** The comparator then calls `constructor` equal to both `hiking` (count 1) and
      `mind` (count 2) while `mind` must come before `hiking`: it is not a consistent
      comparator, so the standard leaves the sorted order implementation-defined. */
  lemma ComparatorIsInconsistent()
    ensures var f := FrequenciesAsWritten(["hiking", "constructor", "mind", "mind"]);
      CompareAsWritten(f, "hiking", "constructor") == 0
      && CompareAsWritten(f, "constructor", "mind") == 0
      && CompareAsWritten(f, "hiking", "mind") > 0
  {
    ExampleTableAsWritten();
  }

  /** The intended table counts `constructor` like any other word. */
  lemma IntendedCountsConstructor()
    ensures IdeaEngine.Frequencies(["hiking", "constructor", "mind", "mind"])
         == map["hiking" := 1, "constructor" := 1, "mind" := 2]
  {
    var s := ["hiking", "constructor", "mind", "mind"];
    assert s[..3] == ["hiking", "constructor", "mind"];
    assert s[..3][..2] == ["hiking", "constructor"];
    assert s[..3][..2][..1] == ["hiking"];
    assert ["hiking"][..0] == [];
    assert IdeaEngine.Frequencies(["hiking"]) == map["hiking" := 1];
    assert IdeaEngine.Frequencies(s[..2]) == map["hiking" := 1, "constructor" := 1];
    assert IdeaEngine.Frequencies(s[..3]) == map["hiking" := 1, "constructor" := 1, "mind" := 1];
  }
}
