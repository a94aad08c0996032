/** The argument and length rules of the `generate` command: which positional
    argument is a YAML key and which a length, how the generated entry is
    labelled, and which password lengths are accepted. */
module Generate {
  import opened Wrappers
  import opened Strings

  /** Length offered when the user is asked for a password length. */
  const DefaultLength: int := 24
  /** Number of words offered when the user is asked for an XKCD-style length. */
  const DefaultXkcdLength: int := 4

  /** `\d` of Go's regular expressions: an ASCII digit. */
  predicate IsDigit(c: char)
    ensures IsDigit(c) <==> c in "0123456789"
  {
    '0' <= c <= '9'
  }

  /** `reNumber` (`^\d+$`): one or more digits and nothing else; in
      particular no sign, so a negative number is never taken for a length. */
  predicate IsNumber(s: string)
    ensures IsNumber(s) ==> s != "" && '-' !in s && '+' !in s
  {
    |s| > 0 && forall i :: 0 <= i < |s| ==> IsDigit(s[i])
  }

  /** `args.Get(i)`: the i-th positional argument, or "" when there is none. */
  function Arg(args: seq<string>, i: nat): (a: string)
    ensures i < |args| ==> a == args[i]
    ensures a != "" ==> i < |args|
  {
    if i < |args| then args[i] else ""
  }

  /** `keyAndLength`: the second and third positional arguments are the key
      and the length, except that a lone numeric second argument is the
      length. No argument text is lost or invented, and when no length is
      left the key is never a number. */
  function KeyAndLength(args: seq<string>): (r: (string, string))
    ensures r.0 + r.1 == Arg(args, 1) + Arg(args, 2)
    ensures r.1 == "" ==> !IsNumber(r.0)
    ensures r.0 == Arg(args, 1) || r.0 == ""
  {
    var key := Arg(args, 1);
    var length := Arg(args, 2);
    if length == "" && key != "" && IsNumber(key) then ("", key) else (key, length)
  }

  /** Both cases of `keyAndLength`: the second argument moves to the length
      exactly when the third is absent and the second is a number. */
  lemma KeyAndLengthCases(args: seq<string>)
    ensures Arg(args, 1) != "" && KeyAndLength(args) == ("", Arg(args, 1)) <==>
      Arg(args, 2) == "" && IsNumber(Arg(args, 1))
    ensures !(Arg(args, 2) == "" && IsNumber(Arg(args, 1))) ==> KeyAndLength(args) == (Arg(args, 1), Arg(args, 2))
  {
  }

  /** Deciding again on the decided key and length changes nothing. */
  lemma KeyAndLengthIdempotent(args: seq<string>)
    ensures var (key, length) := KeyAndLength(args);
      KeyAndLength([Arg(args, 0), key, length]) == (key, length)
  {
  }

  /** The label under which `generateCopyOrPrint` reports the generated
      password: the entry name, followed by `:` and the key when there is
      one. */
  function EntryLabel(name: string, key: string): (shown: string)
    ensures HasPrefix(shown, name)
    ensures shown == name <==> key == ""
    ensures key != "" ==> shown[|name|] == ':' && shown[|name| + 1..] == key
  {
    if key == "" then name else name + ":" + key
  }

  /** Reading a label back: the name before the first `:`, the key after it. */
  function SplitEntryLabel(text: string): (string, string) {
    var i := IndexOf(text, ':');
    if i == |text| then (text, "") else (text[..i], text[i + 1..])
  }

  /** For entry names without `:`, the label determines the name and the key. */
  lemma EntryLabelRoundTrip(name: string, key: string)
    requires ':' !in name
    ensures SplitEntryLabel(EntryLabel(name, key)) == (name, key)
  {
    var shown := EntryLabel(name, key);
    if key == "" {
      assert IndexOf(shown, ':') == |shown|;
    } else {
      assert shown[|name|] == ':';
      assert IndexOf(shown, ':') == |name|;
    }
  }

  /** Why a requested password length is refused. */
  datatype LengthError = NotANumber | NotPositive

  /** The text of each refusal; the two texts tell the refusals apart. */
  function LengthErrorMessage(e: LengthError): (m: string)
    ensures e == NotANumber <==> m == "password length must be a number"
    ensures e == NotPositive <==> m == "password length must not be zero"
  {
    match e
    case NotANumber => "password length must be a number"
    case NotPositive => "password length must not be zero"
  }

  /** The check in front of the generators: a length that could not be read as
      a number is refused, a number below 1 is refused, anything else is the
      length to generate. */
  function CheckLength(parsed: Option<int>): (r: Result<int, LengthError>)
    ensures r == Failure(NotANumber) <==> parsed.None?
    ensures r == Failure(NotPositive) <==> parsed.Some? && parsed.value < 1
    ensures r.Success? ==> r.value >= 1 && parsed == Some(r.value)
  {
    match parsed
    case None => Failure(NotANumber)
    case Some(n) => if n < 1 then Failure(NotPositive) else Success(n)
  }

  /** The password length of `generatePassword` (or, for `xkcd`, the word count
      of `generatePasswordXKCD`): an explicit length is parsed with `atoi`;
      without one the user is asked, with the default length as the
      suggestion. `ask` and `atoi` stand for the terminal prompt and
      `strconv.Atoi`. */
  function PasswordLength(length: string, xkcd: bool, ask: int -> Option<int>, atoi: string -> Option<int>): (r: Result<int, LengthError>)
    ensures r.Success? ==> r.value >= 1
    ensures length != "" ==> (r == Failure(NotANumber) <==> atoi(length).None?)
    ensures length != "" && r.Success? ==> atoi(length) == Some(r.value)
    ensures length == "" && r.Success? ==> ask(if xkcd then DefaultXkcdLength else DefaultLength) == Some(r.value)
    ensures length != "" && atoi(length).Some? && atoi(length).value >= 1 ==> r == Success(atoi(length).value)
    ensures length != "" && atoi(length).Some? && atoi(length).value < 1 ==> r == Failure(NotPositive)
    ensures var answer := ask(if xkcd then DefaultXkcdLength else DefaultLength);
      length == "" ==>
        (r == Failure(NotANumber) <==> answer.None?) &&
        (answer.Some? && answer.value < 1 ==> r == Failure(NotPositive)) &&
        (answer.Some? && answer.value >= 1 ==> r == Success(answer.value))
  {
    if length == "" then CheckLength(ask(if xkcd then DefaultXkcdLength else DefaultLength))
    else CheckLength(atoi(length))
  }
}
