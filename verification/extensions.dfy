/**
 * Two string helpers of the editor: Capitalise, which upper-cases the first
 * character of a name, and GetDescription, which reads the Description
 * attribute of an enum member. An enum type is given as its members in the
 * order Enum.GetValues lists them.
 */
module Extensions {
  import opened Wrappers
  import opened Text

  /** Capitalise: null or empty input is an ArgumentException; otherwise the first character is upper-cased. */
  function Capitalise(input: Option<string>): (r: Result<string, string>)
    ensures r.Failure? <==> IsNullOrEmpty(input)
    ensures r.Failure? ==> r.error == "ArgumentException: ARGH!"
    ensures r.Success? ==> |r.value| == |input.value| && r.value[1..] == input.value[1..]
    ensures r.Success? ==> r.value[0] == UpperChar(input.value[0])
    ensures r.Success? ==> !IsLowerAscii(r.value[0])
  {
    if IsNullOrEmpty(input) then Failure("ArgumentException: ARGH!")
    else Success([UpperChar(input.value[0])] + input.value[1..])
  }

  /** Capitalising a capitalised string changes nothing. */
  lemma CapitaliseIdempotent(input: Option<string>)
    requires !IsNullOrEmpty(input)
    ensures Capitalise(Some(Capitalise(input).value)) == Capitalise(input)
  {
    var once := Capitalise(input).value;
    assert once[0] == UpperChar(input.value[0]);
    assert [UpperChar(once[0])] + once[1..] == once;
  }

  /** A string that already starts with a capital comes back unchanged. */
  lemma CapitaliseKeepsCapitals(s: string)
    requires |s| > 0 && !IsLowerAscii(s[0])
    ensures Capitalise(Some(s)) == Success(s)
  {
    assert [s[0]] + s[1..] == s;
  }

  /** One member of an enum type: its name, its value and its Description attributes in order. */
  datatype EnumMember = EnumMember(name: string, value: int, descriptions: seq<string>)

  /** The receiver of GetDescription: a value of an enum type, or any other IConvertible. */
  datatype Convertible = EnumValue(members: seq<EnumMember>, value: int) | OtherValue

  /** The first member carrying value v: the one the member name of v is looked up by. */
  function FirstWithValue(ms: seq<EnumMember>, v: int): (r: Option<nat>)
    ensures r.Some? ==> r.value < |ms| && ms[r.value].value == v && forall j | 0 <= j < r.value :: ms[j].value != v
    ensures r.None? ==> forall j | 0 <= j < |ms| :: ms[j].value != v
  {
    if |ms| == 0 then None
    else if ms[0].value == v then Some(0)
    else match FirstWithValue(ms[1..], v)
      case Some(i) => Some(i + 1)
      case None => None
  }

  /** What GetDescription returns: the first Description of the member with the value, or null. */
  function Description(e: Convertible): Option<string> {
    match e
    case OtherValue => None
    case EnumValue(ms, v) =>
      match FirstWithValue(ms, v)
      case None => None
      case Some(i) => if |ms[i].descriptions| > 0 then Some(ms[i].descriptions[0]) else None
  }

  /**
   * GetDescription: walks the enum's values, and at the first equal to the
   * receiver takes the member's first Description attribute and stops.
   */
  method GetDescription(e: Convertible) returns (description: Option<string>)
    ensures description == Description(e)
  {
    description := None;
    if e.EnumValue? {
      var ms := e.members;
      for i := 0 to |ms|
        invariant forall j | 0 <= j < i :: ms[j].value != e.value
      {
        if ms[i].value == e.value {
          var attributes := ms[i].descriptions;
          if |attributes| > 0 {
            description := Some(attributes[0]);
          }
          assert FirstWithValue(ms, e.value) == Some(i);
          return;
        }
      }
    }
  }

  /**
   * For the first member with the value: its first Description when it has
   * one, and null when it has none, whatever later members with the same
   * value carry.
   */
  lemma DescriptionOfFirstMember(ms: seq<EnumMember>, v: int, i: nat)
    requires i < |ms| && ms[i].value == v
    requires forall j | 0 <= j < i :: ms[j].value != v
    ensures |ms[i].descriptions| > 0 ==> Description(EnumValue(ms, v)) == Some(ms[i].descriptions[0])
    ensures |ms[i].descriptions| == 0 ==> Description(EnumValue(ms, v)) == None
  {
  }

  /** A value no member carries has no description. */
  lemma UnknownValueHasNoDescription(ms: seq<EnumMember>, v: int)
    requires forall j | 0 <= j < |ms| :: ms[j].value != v
    ensures Description(EnumValue(ms, v)) == None
  {
  }
}
