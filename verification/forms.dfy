/** The client's administrative prompts: the global-password update and
    the per-tag password request, with JavaScript's `parseInt` for the
    visibility answer. A prompt's answer is `None` when it is cancelled. */
module Forms {
  import opened Wrappers
  import Strings
  import opened Store

  predicate IsDigit(c: char)
  {
    '0' <= c <= '9'
  }

  predicate AllDigits(s: string)
  {
    forall i | 0 <= i < |s| :: IsDigit(s[i])
  }

  function DigitValue(c: char): nat
    requires IsDigit(c)
  {
    (c as int - '0' as int) as nat
  }

  function DigitChar(d: nat): (c: char)
    requires d < 10
    ensures IsDigit(c) && DigitValue(c) == d
  {
    ('0' as int + d) as char
  }

  /** The longest run of decimal digits at the start of `s`. */
  function DigitPrefix(s: string): (d: string)
    ensures |d| <= |s| && d == s[..|d|] && AllDigits(d)
    ensures |d| < |s| ==> !IsDigit(s[|d|])
  {
    if |s| > 0 && IsDigit(s[0]) then [s[0]] + DigitPrefix(s[1..]) else ""
  }

  /** The value of a run of decimal digits, most significant first. */
  function DigitsValue(d: string): nat
    requires AllDigits(d)
  {
    if |d| == 0 then 0 else DigitsValue(d[..|d| - 1]) * 10 + DigitValue(d[|d| - 1])
  }

  /** `parseInt(s, 10)`: leading blanks are skipped, one sign is read,
      then the longest run of digits; anything after it is ignored. With
      no digit there the result is NaN, here `None`. */
  function ParseInt(s: string): (r: Option<int>)
    ensures var t := Strings.TrimStart(s);
      var unsigned := if |t| > 0 && (t[0] == '-' || t[0] == '+') then t[1..] else t;
      r.Some? <==> |unsigned| > 0 && IsDigit(unsigned[0])
    ensures |s| > 0 && IsDigit(s[0]) ==> r.Some?
    ensures r.Some? ==> exists i | 0 <= i < |s| :: IsDigit(s[i])
  {
    var t := Strings.TrimStart(s);
    var r := ParseSigned(t);
    if r.Some? then
      SignedHasDigit(t);
      var i :| 0 <= i < |t| && IsDigit(t[i]);
      assert IsDigit(s[|s| - |t| + i]);
      r
    else r
  }

  lemma SignedHasDigit(t: string)
    requires ParseSigned(t).Some?
    ensures exists i | 0 <= i < |t| :: IsDigit(t[i])
  {
    var unsigned := if |t| > 0 && (t[0] == '-' || t[0] == '+') then t[1..] else t;
    var digits := DigitPrefix(unsigned);
    assert IsDigit(digits[0]) && unsigned[0] == digits[0];
    if |t| > 0 && (t[0] == '-' || t[0] == '+') {
      assert IsDigit(t[1]);
    } else {
      assert IsDigit(t[0]);
    }
  }

  /** The decimal rendering of a natural number, without leading zeros. */
  function ShowNat(n: nat): (s: string)
    ensures |s| > 0 && AllDigits(s)
  {
    if n < 10 then [DigitChar(n)] else ShowNat(n / 10) + [DigitChar(n % 10)]
  }

  /** The decimal rendering of an integer, `-` first when negative. */
  function ShowInt(n: int): string
  {
    if n < 0 then "-" + ShowNat(-n) else ShowNat(n)
  }

  lemma {:induction false} DigitsValueShowNat(n: nat)
    ensures DigitsValue(ShowNat(n)) == n
  {
    if n >= 10 {
      var s := ShowNat(n);
      DigitsValueShowNat(n / 10);
      assert s[..|s| - 1] == ShowNat(n / 10);
    }
  }

  lemma {:induction false} DigitPrefixStops(d: string, rest: string)
    requires AllDigits(d)
    requires |rest| == 0 || !IsDigit(rest[0])
    ensures DigitPrefix(d + rest) == d
  {
    if |d| > 0 {
      assert (d + rest)[1..] == d[1..] + rest;
      DigitPrefixStops(d[1..], rest);
      assert d == [d[0]] + d[1..];
    } else {
      assert d + rest == rest;
    }
  }

  /** What `parseInt` does after the blanks: an optional sign, then the
      digit run. */
  function ParseSigned(t: string): (r: Option<int>)
    ensures var unsigned := if |t| > 0 && (t[0] == '-' || t[0] == '+') then t[1..] else t;
      r.Some? <==> |unsigned| > 0 && IsDigit(unsigned[0])
    ensures r.Some? && r.value < 0 ==> t[0] == '-'
    ensures |t| > 0 && IsDigit(t[0]) ==> r.Some? && r.value >= 0
  {
    var negative := |t| > 0 && t[0] == '-';
    var unsigned := if |t| > 0 && (t[0] == '-' || t[0] == '+') then t[1..] else t;
    var digits := DigitPrefix(unsigned);
    if |digits| == 0 then None
    else
      var value: int := DigitsValue(digits);
      Some(if negative then -value else value)
  }

  lemma ParseIntNoBlank(s: string)
    requires |s| > 0 && !Strings.IsSpace(s[0])
    ensures ParseInt(s) == ParseSigned(s)
  {
    assert Strings.TrimStart(s) == s;
  }

  /** `parseInt` reads back the decimal rendering of any integer, whatever
      non-digit text follows it. */
  lemma ParseIntShowInt(n: int, rest: string)
    requires |rest| == 0 || !IsDigit(rest[0])
    ensures ParseInt(ShowInt(n) + rest) == Some(n)
  {
    if n < 0 {
      var m: nat := -n;
      assert ShowInt(n) == "-" + ShowNat(m);
      assert ShowInt(n) + rest == "-" + (ShowNat(m) + rest);
      ParseIntNegative(m, rest);
    } else {
      assert ShowInt(n) == ShowNat(n);
      ParseIntNatural(n, rest);
    }
  }

  /** The same read-back with any run of blanks in front. */
  lemma ParseIntBlanksShowInt(blanks: string, n: int, rest: string)
    requires forall k | 0 <= k < |blanks| :: Strings.IsSpace(blanks[k])
    requires |rest| == 0 || !IsDigit(rest[0])
    ensures ParseInt(blanks + ShowInt(n) + rest) == Some(n)
  {
    var x := ShowInt(n) + rest;
    assert blanks + ShowInt(n) + rest == blanks + x;
    ParseIntShowInt(n, rest);
    ShownIntStartsNonBlank(n, rest);
    SkipBlanks(blanks, x);
    ParseIntNoBlank(x);
  }

  lemma ShownIntStartsNonBlank(n: int, rest: string)
    ensures |ShowInt(n) + rest| > 0 && !Strings.IsSpace((ShowInt(n) + rest)[0])
  {
    var x := ShowInt(n) + rest;
    if n < 0 {
      assert x[0] == '-';
    } else {
      assert x[0] == ShowNat(n)[0];
    }
  }

  /** Blanks in front of a text that starts with a non-blank are exactly
      what `TrimStart` removes. */
  lemma SkipBlanks(blanks: string, x: string)
    requires forall k | 0 <= k < |blanks| :: Strings.IsSpace(blanks[k])
    requires |x| > 0 && !Strings.IsSpace(x[0])
    ensures Strings.TrimStart(blanks + x) == x
  {
    var s := blanks + x;
    var r := Strings.TrimStart(s);
    assert s[|blanks|] == x[0];
    assert |s| - |r| <= |blanks|;
    assert r[0] == s[|s| - |r|];
    assert forall k | 0 <= k < |blanks| :: s[k] == blanks[k];
    assert |s| - |r| == |blanks|;
    assert s[|blanks|..] == x;
  }

  lemma ParseIntNatural(m: nat, rest: string)
    requires |rest| == 0 || !IsDigit(rest[0])
    ensures ParseInt(ShowNat(m) + rest) == Some(m)
  {
    ParseSignedNatural(m, rest);
    ParseIntNoBlank(ShowNat(m) + rest);
  }

  lemma ParseIntNegative(m: nat, rest: string)
    requires |rest| == 0 || !IsDigit(rest[0])
    ensures ParseInt("-" + (ShowNat(m) + rest)) == Some(-(m as int))
  {
    var s := "-" + (ShowNat(m) + rest);
    ParseSignedNegative(m, rest);
    assert s[0] == '-';
    ParseIntNoBlank(s);
  }

  lemma ParseSignedNatural(m: nat, rest: string)
    requires |rest| == 0 || !IsDigit(rest[0])
    ensures ParseSigned(ShowNat(m) + rest) == Some(m)
    ensures !Strings.IsSpace((ShowNat(m) + rest)[0])
  {
    ParseShownNat(m, rest);
  }

  lemma ParseSignedNegative(m: nat, rest: string)
    requires |rest| == 0 || !IsDigit(rest[0])
    ensures ParseSigned("-" + (ShowNat(m) + rest)) == Some(-(m as int))
  {
    var s := "-" + (ShowNat(m) + rest);
    assert s[1..] == ShowNat(m) + rest;
    ParseShownNat(m, rest);
  }

  lemma ParseShownNat(m: nat, rest: string)
    requires |rest| == 0 || !IsDigit(rest[0])
    ensures DigitPrefix(ShowNat(m) + rest) == ShowNat(m)
    ensures DigitsValue(ShowNat(m)) == m
    ensures IsDigit((ShowNat(m) + rest)[0])
  {
    DigitsValueShowNat(m);
    DigitPrefixStops(ShowNat(m), rest);
  }

  /** `prompt(...) || fallback`: a cancelled or empty answer gives the
      fallback. */
  function OrDefault(answer: Option<string>, fallback: string): (r: string)
    ensures answer.Some? && answer.value != "" ==> r == answer.value
    ensures answer == None || answer == Some("") ==> r == fallback
  {
    if answer.Some? && answer.value != "" then answer.value else fallback
  }

  /** JavaScript truthiness of a prompt's answer. */
  predicate Given(answer: Option<string>)
  {
    answer.Some? && answer.value != ""
  }

  datatype GlobalPasswords = GlobalPasswords(vis1: string, vis3: string, vis5: string)

  /** `updateGlobalPasswords`: the request is sent only when all three
      answers are non-empty. */
  function UpdateGlobalPasswords(vis1: Option<string>, vis3: Option<string>, vis5: Option<string>)
    : (r: Option<GlobalPasswords>)
    ensures r.Some? <==> Given(vis1) && Given(vis3) && Given(vis5)
    ensures r.Some? ==> r.value.vis1 == vis1.value && r.value.vis3 == vis3.value && r.value.vis5 == vis5.value
    ensures r.Some? ==> r.value.vis1 != "" && r.value.vis3 != "" && r.value.vis5 != ""
  {
    if !Given(vis1) || !Given(vis3) || !Given(vis5) then None
    else Some(GlobalPasswords(vis1.value, vis3.value, vis5.value))
  }

  /** A graph node's id and name. */
  datatype NamedTag = NamedTag(id: TagId, name: string)

  /** `nodes.find(n => n.name === name)`: the first node with that name. */
  function FindByName(nodes: seq<NamedTag>, name: string): (r: Option<TagId>)
    ensures r.None? <==> forall i | 0 <= i < |nodes| :: nodes[i].name != name
    ensures r.Some? ==> exists i | 0 <= i < |nodes| ::
              && nodes[i].name == name && nodes[i].id == r.value
              && forall j | 0 <= j < i :: nodes[j].name != name
  {
    if |nodes| == 0 then None
    else if nodes[0].name == name then Some(nodes[0].id)
    else
      var r := FindByName(nodes[1..], name);
      if r.Some? then
        var i :| 0 <= i < |nodes| - 1 && nodes[1..][i].name == name && nodes[1..][i].id == r.value
                 && forall j | 0 <= j < i :: nodes[1..][j].name != name;
        assert nodes[i + 1].name == name && nodes[i + 1].id == r.value;
        assert forall j | 0 <= j < i + 1 :: nodes[j].name != name by {
          forall j | 0 <= j < i + 1 ensures nodes[j].name != name {
            if j > 0 { assert nodes[j] == nodes[1..][j - 1]; }
          }
        }
        r
      else
        assert forall i | 0 <= i < |nodes| :: nodes[i].name != name by {
          forall i | 0 <= i < |nodes| ensures nodes[i].name != name {
            if i > 0 { assert nodes[i] == nodes[1..][i - 1]; }
          }
        }
        r
  }

  /** The request body; a `maxVisibility` of `None` is a NaN, which the
      JSON encoding sends as `null`. */
  datatype TagPasswordRequest = TagPasswordRequest(tagId: TagId, maxVisibility: Option<int>, adminPassword: string)

  datatype TagPasswordOutcome =
    | NoTagName
    | TagNotFound
    | InvalidVisibility
    | NoAdminPassword
    | Send(request: TagPasswordRequest)

  /** The visibility answer as read: empty or cancelled means "3". */
  function VisibilityAnswer(answer: Option<string>): (v: Option<int>)
    ensures answer == None || answer == Some("") ==> v == Some(3)
    ensures answer.Some? && answer.value != "" ==> v == ParseInt(answer.value)
  {
    ParseIntShowInt(3, "");
    assert ShowInt(3) + "" == "3";
    ParseInt(OrDefault(answer, "3"))
  }

  /** `handleGenerateTagPassword` as written: the range check is two
      comparisons, both false for NaN, so an unparsable answer is sent. */
  function GenerateTagPasswordAsWritten(tagName: Option<string>, nodes: seq<NamedTag>,
                                        visibility: Option<string>, admin: Option<string>)
    : (r: TagPasswordOutcome)
    ensures r.Send? ==> Given(tagName) && Given(admin) && FindByName(nodes, tagName.value) == Some(r.request.tagId)
    ensures r.Send? && r.request.maxVisibility.Some? ==> 1 <= r.request.maxVisibility.value <= 5
  {
    if !Given(tagName) then NoTagName
    else
      var tag := FindByName(nodes, tagName.value);
      if tag.None? then TagNotFound
      else
        var v := VisibilityAnswer(visibility);
        if v.Some? && (v.value < 1 || v.value > 5) then InvalidVisibility
        else if !Given(admin) then NoAdminPassword
        else Send(TagPasswordRequest(tag.value, v, admin.value))
  }

  /** "x" is not a number. */
  lemma NotANumber()
    ensures VisibilityAnswer(Some("x")) == None
  {
    var x: string := "x";
    assert OrDefault(Some(x), "3") == x;
    assert ParseSigned(x) == None;
    ParseIntNoBlank(x);
    assert ParseInt(x) == None;
    assert VisibilityAnswer(Some(x)) == ParseInt(OrDefault(Some(x), "3"));
  }

  /** An answer that is not a number passes the range check and is sent
      as a NaN. */
  lemma NaNVisibilityIsSent()
    ensures GenerateTagPasswordAsWritten(Some("work"), [NamedTag(7, "work")], Some("x"), Some("admin"))
         == Send(TagPasswordRequest(7, None, "admin"))
  {
    var name: string := "work";
    var admin: string := "admin";
    var nodes := [NamedTag(7, name)];
    NotANumber();
    assert Given(Some(name)) && Given(Some(admin));
    assert nodes[0].name == name;
    assert FindByName(nodes, name) == Some(7);
  }

  /** `handleGenerateTagPassword` with the range check it evidently
      intends: anything but a number from 1 to 5 is rejected. */
  function GenerateTagPassword(tagName: Option<string>, nodes: seq<NamedTag>,
                               visibility: Option<string>, admin: Option<string>)
    : (r: TagPasswordOutcome)
    ensures r.Send? <==>
      && Given(tagName) && FindByName(nodes, tagName.value).Some?
      && VisibilityAnswer(visibility).Some? && 1 <= VisibilityAnswer(visibility).value <= 5
      && Given(admin)
    ensures r.Send? ==>
      && r.request.tagId == FindByName(nodes, tagName.value).value
      && r.request.maxVisibility == VisibilityAnswer(visibility)
      && r.request.adminPassword == admin.value
    ensures r == InvalidVisibility <==>
      Given(tagName) && FindByName(nodes, tagName.value).Some?
      && !(VisibilityAnswer(visibility).Some? && 1 <= VisibilityAnswer(visibility).value <= 5)
  {
    if !Given(tagName) then NoTagName
    else
      var tag := FindByName(nodes, tagName.value);
      if tag.None? then TagNotFound
      else
        var v := VisibilityAnswer(visibility);
        if v.None? || v.value < 1 || v.value > 5 then InvalidVisibility
        else if !Given(admin) then NoAdminPassword
        else Send(TagPasswordRequest(tag.value, v, admin.value))
  }

  /** The corrected check differs from the original only on answers that
      are not numbers. */
  lemma CorrectedAgreesOnNumbers(tagName: Option<string>, nodes: seq<NamedTag>,
                                 visibility: Option<string>, admin: Option<string>)
    requires VisibilityAnswer(visibility).Some?
    ensures GenerateTagPassword(tagName, nodes, visibility, admin)
         == GenerateTagPasswordAsWritten(tagName, nodes, visibility, admin)
  {
  }

  /** A cancelled or empty visibility answer asks for level 3. */
  lemma DefaultVisibilityIsThree(answer: Option<string>)
    requires answer == None || answer == Some("")
    ensures VisibilityAnswer(answer) == Some(3)
  {
    ParseIntShowInt(3, "");
    assert ShowInt(3) + "" == "3";
  }
}
