/** The scoped JSON writer of the web server, and a reader for sections 4 to 7 of RFC 8259 to judge its text by.
    Strings and numbers are held here as their encoded text. */
module JsonWriter {

  /** What a caller asks for: named calls and addArrayObject. The reader gives its result in the same form. */
  datatype Item = Named(name: string, value: Value) | Bare(value: Value)

  datatype Value =
    | Text(body: string)
    | Number(digits: string)
    | Boolean(b: bool)
    | Null
    | Object(members: seq<Item>)
    | Array(elements: seq<Item>)

  datatype Parsed<T> = Malformed | Got(value: T, rest: string)

  // ---------- Encoded strings and numbers ----------

  predicate IsHex(c: char) { '0' <= c <= '9' || 'a' <= c <= 'f' || 'A' <= c <= 'F' }

  /** Length of one character of a string body (section 7), 0 when there is none. */
  function CharLength(s: string): (n: nat)
    ensures n <= |s|
  {
    if s == "" || s[0] == '"' || s[0] < ' ' then 0
    else if s[0] != '\\' then 1
    else if |s| >= 2 && s[1] in "\"\\/bfnrt" then 2
    else if |s| >= 6 && s[1] == 'u' && IsHex(s[2]) && IsHex(s[3]) && IsHex(s[4]) && IsHex(s[5]) then 6
    else 0
  }

  predicate IsStringBody(s: string)
    decreases |s|
  {
    s == "" || (CharLength(s) > 0 && IsStringBody(s[CharLength(s)..]))
  }

  predicate IsDigit(c: char) { '0' <= c <= '9' }

  predicate NumberChar(c: char) { IsDigit(c) || c in "+-.eE" }

  predicate Digits(s: string) { s != "" && forall i | 0 <= i < |s| :: IsDigit(s[i]) }

  /** The number of leading characters of `s` that are digits. */
  function DigitSpan(s: string): (n: nat)
    ensures n <= |s|
  {
    if s == "" || !IsDigit(s[0]) then 0 else 1 + DigitSpan(s[1..])
  }

  predicate IsExponent(s: string) {
    s == "" || (s[0] in "eE" && (Digits(s[1..]) || (|s| >= 2 && s[1] in "+-" && Digits(s[2..]))))
  }

  predicate IsFraction(s: string) {
    if s != "" && s[0] == '.' then
      var n := DigitSpan(s[1..]);
      n > 0 && IsExponent(s[1 + n..])
    else IsExponent(s)
  }

  /** The number grammar of section 6. */
  predicate IsNumber(s: string) {
    var t := if s != "" && s[0] == '-' then s[1..] else s;
    var n := DigitSpan(t);
    n > 0 && (t[0] != '0' || n == 1) && IsFraction(t[n..])
    && forall i | 0 <= i < |s| :: NumberChar(s[i])
  }

  // ---------- The text written ----------

  const QUOTE: string := "\""

  function Written(v: Value): string {
    match v
    case Text(body) => QUOTE + body + QUOTE
    case Number(digits) => digits
    case Boolean(b) => if b then "true" else "false"
    case Null => "null"
    case Object(members) => "{" + WrittenItems(members, true) + "}"
    case Array(elements) => "[" + WrittenItems(elements, true) + "]"
  }

  function Label(name: string): string { QUOTE + name + QUOTE + ":" }

  function WrittenItem(item: Item): string {
    match item
    case Named(name, value) => Label(name) + Written(value)
    case Bare(value) => Written(value)
  }

  function WrittenItems(items: seq<Item>, first: bool): string {
    if items == [] then ""
    else (if first then "" else ",") + WrittenItem(items[0]) + WrittenItems(items[1..], false)
  }

  /** Strings and numbers come from encoders that follow the standard; the only nameless call opens an object. */
  predicate Encoded(v: Value) {
    match v
    case Text(body) => IsStringBody(body)
    case Number(digits) => IsNumber(digits)
    case Boolean(_) | Null => true
    case Object(items) => forall i | 0 <= i < |items| :: EncodedItem(items[i])
    case Array(items) => forall i | 0 <= i < |items| :: EncodedItem(items[i])
  }

  predicate EncodedItem(item: Item) {
    Encoded(item.value) && (if item.Named? then IsStringBody(item.name) else item.value.Object?)
  }

  /** Named calls only in object scopes, addArrayObject only in array scopes. */
  predicate Fitting(v: Value) {
    match v
    case Object(items) => forall i | 0 <= i < |items| :: items[i].Named? && Fitting(items[i].value)
    case Array(items) => forall i | 0 <= i < |items| :: items[i].Bare? && Fitting(items[i].value)
    case _ => true
  }

  // ---------- The reader ----------

  function ReadString(s: string): (r: Parsed<string>)
    ensures r.Got? ==> |r.rest| < |s|
    decreases |s|
  {
    if s == "" then Malformed
    else if s[0] == '"' then Got("", s[1..])
    else
      var n := CharLength(s);
      if n == 0 then Malformed
      else
        match ReadString(s[n..])
        case Malformed => Malformed
        case Got(body, rest) => Got(s[..n] + body, rest)
  }

  function NumberSpan(s: string): (n: nat)
    ensures n <= |s|
  {
    if s == "" || !NumberChar(s[0]) then 0 else 1 + NumberSpan(s[1..])
  }

  predicate Starts(s: string, with: string) { |with| <= |s| && s[..|with|] == with }

  function ReadValue(s: string): (r: Parsed<Value>)
    ensures r.Got? ==> |r.rest| < |s|
    decreases |s|, 0
  {
    if s == "" then Malformed
    else if s[0] == '"' then
      match ReadString(s[1..])
      case Malformed => Malformed
      case Got(body, rest) => Got(Text(body), rest)
    else if s[0] == '{' then
      if Starts(s[1..], "}") then Got(Object([]), s[2..])
      else
        match ReadMembers(s[1..])
        case Malformed => Malformed
        case Got(members, rest) => Got(Object(members), rest)
    else if s[0] == '[' then
      if Starts(s[1..], "]") then Got(Array([]), s[2..])
      else
        match ReadElements(s[1..])
        case Malformed => Malformed
        case Got(elements, rest) => Got(Array(elements), rest)
    else if Starts(s, "true") then Got(Boolean(true), s[4..])
    else if Starts(s, "false") then Got(Boolean(false), s[5..])
    else if Starts(s, "null") then Got(Null, s[4..])
    else
      var n := NumberSpan(s);
      if IsNumber(s[..n]) then Got(Number(s[..n]), s[n..]) else Malformed
  }

  /** One or more members, up to and including the closing brace. */
  function ReadMembers(s: string): (r: Parsed<seq<Item>>)
    ensures r.Got? ==> |r.rest| < |s|
    decreases |s|, 1
  {
    if !Starts(s, QUOTE) then Malformed
    else
      match ReadString(s[1..])
      case Malformed => Malformed
      case Got(name, afterName) =>
        if !Starts(afterName, ":") then Malformed
        else
          var r := ReadValue(afterName[1..]);
          if r.Malformed? then Malformed else MoreMembers(Named(name, r.value), r.rest)
  }

  function MoreMembers(item: Item, s: string): (r: Parsed<seq<Item>>)
    ensures r.Got? ==> |r.rest| < |s|
    decreases |s|, 2
  {
    if Starts(s, "}") then Got([item], s[1..])
    else if Starts(s, ",") then
      match ReadMembers(s[1..])
      case Malformed => Malformed
      case Got(more, rest) => Got([item] + more, rest)
    else Malformed
  }

  /** One or more elements, up to and including the closing bracket. */
  function ReadElements(s: string): (r: Parsed<seq<Item>>)
    ensures r.Got? ==> |r.rest| < |s|
    decreases |s|, 1
  {
    var r := ReadValue(s);
    if r.Malformed? then Malformed else MoreElements(Bare(r.value), r.rest)
  }

  function MoreElements(item: Item, s: string): (r: Parsed<seq<Item>>)
    ensures r.Got? ==> |r.rest| < |s|
    decreases |s|, 2
  {
    if Starts(s, "]") then Got([item], s[1..])
    else if Starts(s, ",") then
      match ReadElements(s[1..])
      case Malformed => Malformed
      case Got(more, rest) => Got([item] + more, rest)
    else Malformed
  }

  /** A whole text that is one value. */
  function Read(s: string): Parsed<Value> {
    match ReadValue(s)
    case Malformed => Malformed
    case Got(value, rest) => if rest == "" then Got(value, "") else Malformed
  }

  // ---------- One step of the reader ----------

  lemma ReadsQuoted(t: string)
    ensures ReadValue(QUOTE + t) ==
            match ReadString(t) case Malformed => Malformed case Got(body, rest) => Got(Text(body), rest)
  {
    assert (QUOTE + t)[1..] == t;
  }

  lemma ReadsBrace(t: string)
    ensures ReadValue("{" + t) ==
            if Starts(t, "}") then Got(Object([]), t[1..])
            else match ReadMembers(t) case Malformed => Malformed case Got(items, rest) => Got(Object(items), rest)
  {
    var s := "{" + t;
    assert s[1..] == t;
    assert Starts(t, "}") ==> s[2..] == t[1..];
  }

  lemma ReadsBracket(t: string)
    ensures ReadValue("[" + t) ==
            if Starts(t, "]") then Got(Array([]), t[1..])
            else match ReadElements(t) case Malformed => Malformed case Got(items, rest) => Got(Array(items), rest)
  {
    var s := "[" + t;
    assert s[1..] == t;
    assert Starts(t, "]") ==> s[2..] == t[1..];
  }

  lemma ReadsTrue(rest: string)
    ensures ReadValue("true" + rest) == Got(Boolean(true), rest)
  {
    var s := "true" + rest;
    assert s[0] == 't' && s[..4] == "true" && s[4..] == rest;
  }

  lemma ReadsFalse(rest: string)
    ensures ReadValue("false" + rest) == Got(Boolean(false), rest)
  {
    var s := "false" + rest;
    assert s[0] == 'f' && s[..5] == "false" && s[5..] == rest;
    assert s[..4][0] != 't';
  }

  lemma ReadsNull(rest: string)
    ensures ReadValue("null" + rest) == Got(Null, rest)
  {
    var s := "null" + rest;
    assert s[0] == 'n' && s[..4] == "null" && s[4..] == rest;
    assert s[..4][0] != 't' && (|s| >= 5 ==> s[..5][0] != 'f');
  }

  lemma NotAWord(s: string)
    requires s != "" && NumberChar(s[0])
    ensures s[0] !in "\"{[" && !Starts(s, "true") && !Starts(s, "false") && !Starts(s, "null")
  {
    assert forall n | 0 < n <= |s| :: s[..n][0] == s[0];
  }

  lemma ReadsNumber(s: string)
    requires s != "" && NumberChar(s[0])
    ensures var n := NumberSpan(s);
            ReadValue(s) == if IsNumber(s[..n]) then Got(Number(s[..n]), s[n..]) else Malformed
  {
    hide NumberSpan, IsNumber, NumberChar, Starts, ReadString, ReadMembers, ReadElements;
    NotAWord(s);
    var q, b, k := '"', '{', '[';
    assert q in "\"{[" && b in "\"{[" && k in "\"{[";
  }

  // ---------- Reading back what was written ----------

  lemma {:induction false} StringReads(body: string, rest: string)
    requires IsStringBody(body)
    ensures ReadString(body + QUOTE + rest) == Got(body, rest)
    decreases |body|
  {
    hide CharLength;
    var s := body + QUOTE + rest;
    if body == "" {
      assert s[0] == '"' && s[1..] == rest;
    } else {
      var n := CharLength(body);
      StringReads(body[n..], rest);
      CharLengthLocal(body, QUOTE + rest);
      assert s == body + (QUOTE + rest);
      assert s[n..] == body[n..] + QUOTE + rest && s[..n] == body[..n];
      assert body[..n] + body[n..] == body;
    }
  }

  lemma CharLengthLocal(body: string, rest: string)
    requires CharLength(body) > 0
    ensures CharLength(body + rest) == CharLength(body) && (body + rest)[0] == body[0] != '"'
  {
  }

  /** What may follow a value: nothing, or a character that no number contains. */
  predicate Delimits(rest: string) { rest == "" || !NumberChar(rest[0]) }

  lemma {:induction false} NumberSpans(digits: string, rest: string)
    requires Delimits(rest) && forall i | 0 <= i < |digits| :: NumberChar(digits[i])
    ensures NumberSpan(digits + rest) == |digits|
  {
    if digits == "" {
      assert digits + rest == rest;
    } else {
      NumberSpans(digits[1..], rest);
      assert (digits + rest)[1..] == digits[1..] + rest;
    }
  }

  lemma NumberCharacters(digits: string)
    requires IsNumber(digits)
    ensures digits != "" && forall i | 0 <= i < |digits| :: NumberChar(digits[i])
  {
  }

  lemma NumberReads(digits: string, rest: string)
    requires IsNumber(digits) && Delimits(rest)
    ensures ReadValue(digits + rest) == Got(Number(digits), rest)
  {
    hide IsNumber, NumberChar, ReadValue;
    var s := digits + rest;
    NumberCharacters(digits);
    NumberSpans(digits, rest);
    ReadsNumber(s);
    assert s[..|digits|] == digits && s[|digits|..] == rest;
  }

  /** The text of a call tree reads as the tree itself if the calls fit their scopes, and as nothing if they do not. */
  lemma {:induction false} WrittenReads(v: Value, rest: string)
    requires Encoded(v) && Delimits(rest)
    ensures ReadValue(Written(v) + rest) == if Fitting(v) then Got(v, rest) else Malformed
    decreases v, 0
  {
    hide ReadValue, ReadMembers, ReadElements, ReadString, IsNumber, IsStringBody, WrittenItems, Delimits;
    match v
    case Text(body) =>
      StringReads(body, rest);
      ReadsQuoted(body + QUOTE + rest);
      assert Written(v) + rest == QUOTE + (body + QUOTE + rest);
    case Number(digits) =>
      NumberReads(digits, rest);
    case Boolean(b) =>
      ReadsTrue(rest);
      ReadsFalse(rest);
    case Null =>
      ReadsNull(rest);
    case Object(members) =>
      var t := WrittenItems(members, true) + "}" + rest;
      assert Written(v) + rest == "{" + t;
      ReadsBrace(t);
      if members == [] {
        EmptyScope("}", rest);
      } else {
        MembersRead(v, members, rest);
        NotClosed(members, "}", rest);
      }
    case Array(elements) =>
      var t := WrittenItems(elements, true) + "]" + rest;
      assert Written(v) + rest == "[" + t;
      ReadsBracket(t);
      if elements == [] {
        EmptyScope("]", rest);
      } else {
        ElementsRead(v, elements, rest);
        NotClosed(elements, "]", rest);
      }
  }

  lemma EmptyScope(close: string, rest: string)
    requires |close| == 1
    ensures var t := WrittenItems([], true) + close + rest; Starts(t, close) && t[1..] == rest
  {
  }

  /** Every item starts with a quote or an opening brace. */
  lemma ItemStarts(item: Item)
    requires EncodedItem(item)
    ensures WrittenItem(item) != "" && WrittenItem(item)[0] == if item.Named? then '"' else '{'
  {
    hide IsStringBody;
  }

  lemma NotClosed(items: seq<Item>, close: string, rest: string)
    requires items != [] && EncodedItem(items[0]) && close in {"}", "]"}
    ensures !Starts(WrittenItems(items, true) + close + rest, close)
  {
    hide EncodedItem, WrittenItem;
    ItemStarts(items[0]);
    var t := WrittenItems(items, true) + close + rest;
    assert t[0] == WrittenItem(items[0])[0];
    assert t[..1][0] == t[0];
  }

  /** What follows the first item of a scope: the other items, each behind its comma, and the end of the scope. */
  function After(items: seq<Item>, close: string, rest: string): string
    requires items != []
  {
    WrittenItems(items[1..], false) + close + rest
  }

  lemma FirstItem(items: seq<Item>, close: string, rest: string)
    requires items != []
    ensures WrittenItems(items, true) + close + rest == WrittenItem(items[0]) + After(items, close, rest)
  {
    var item, more := WrittenItem(items[0]), WrittenItems(items[1..], false);
    assert WrittenItems(items, true) == "" + item + more;
    hide WrittenItem, WrittenItems;
    Regroup(item, more, close, rest);
  }

  lemma Regroup(a: string, b: string, c: string, d: string)
    ensures "" + a + b + c + d == a + (b + c + d)
  {
  }

  lemma NextItem(items: seq<Item>, close: string, rest: string)
    requires items != []
    ensures |items| == 1 ==> After(items, close, rest) == close + rest
    ensures |items| > 1 ==> After(items, close, rest) == "," + (WrittenItems(items[1..], true) + close + rest)
  {
    hide WrittenItem;
    if |items| > 1 {
      var item, more := WrittenItem(items[1]), WrittenItems(items[1..][1..], false);
      assert WrittenItems(items[1..], false) == "," + item + more;
      assert WrittenItems(items[1..], true) == "" + item + more;
      assert "," + item + more + close + rest == "," + ("" + item + more + close + rest);
    }
  }

  lemma AfterDelimits(items: seq<Item>, close: string, rest: string)
    requires items != [] && close in {"}", "]"}
    ensures Delimits(After(items, close, rest))
  {
    hide After;
    NextItem(items, close, rest);
  }

  lemma ReadsMember(name: string, u: string)
    requires IsStringBody(name)
    ensures var r := ReadValue(u);
            ReadMembers(QUOTE + name + QUOTE + ":" + u) ==
            if r.Malformed? then Malformed else MoreMembers(Named(name, r.value), r.rest)
  {
    hide IsStringBody, ReadValue, ReadString, MoreMembers;
    var s := QUOTE + name + QUOTE + ":" + u;
    assert s[1..] == name + QUOTE + (":" + u);
    assert s[..1] == QUOTE;
    StringReads(name, ":" + u);
    assert (":" + u)[1..] == u && (":" + u)[..1] == ":";
  }

  lemma NamelessMember(item: Item, u: string)
    requires EncodedItem(item) && item.Bare?
    ensures ReadMembers(WrittenItem(item) + u) == Malformed
  {
    hide EncodedItem, WrittenItem, ReadValue, ReadString, MoreMembers;
    ItemStarts(item);
    var s := WrittenItem(item) + u;
    assert s[..1][0] == s[0] == '{';
  }

  lemma NamedElement(item: Item, u: string)
    requires EncodedItem(item) && item.Named?
    ensures ReadElements(WrittenItem(item) + u) == Malformed
  {
    hide IsStringBody, ReadValue, ReadString, Written, Encoded;
    var v := ":" + Written(item.value) + u;
    assert WrittenItem(item) + u == QUOTE + (item.name + QUOTE + v);
    ReadsQuoted(item.name + QUOTE + v);
    StringReads(item.name, v);
    assert v[..1][0] == v[0] == ':';
  }

  lemma MoreMembersClosed(item: Item, rest: string)
    ensures MoreMembers(item, "}" + rest) == Got([item], rest)
    ensures MoreElements(item, "]" + rest) == Got([item], rest)
  {
    hide ReadMembers, ReadElements;
    assert ("}" + rest)[..1] == "}" && ("}" + rest)[1..] == rest;
    assert ("]" + rest)[..1] == "]" && ("]" + rest)[1..] == rest;
  }

  lemma MoreMembersFollow(item: Item, u: string)
    ensures MoreMembers(item, "," + u) ==
            match ReadMembers(u) case Malformed => Malformed case Got(more, rest) => Got([item] + more, rest)
    ensures MoreElements(item, "," + u) ==
            match ReadElements(u) case Malformed => Malformed case Got(more, rest) => Got([item] + more, rest)
  {
    hide ReadMembers, ReadElements;
    assert ("," + u)[0] == ',' && ("," + u)[..1] == "," && ("," + u)[1..] == u;
    assert ("," + u)[..1][0] == ',';
  }

  lemma FittingSplits(items: seq<Item>)
    requires items != []
    ensures Fitting(Object(items)) <==>
            items[0].Named? && Fitting(items[0].value) && (|items| > 1 ==> Fitting(Object(items[1..])))
    ensures Fitting(Array(items)) <==>
            items[0].Bare? && Fitting(items[0].value) && (|items| > 1 ==> Fitting(Array(items[1..])))
  {
    assert items == [items[0]] + items[1..];
  }

  lemma {:induction false} MembersRead(v: Value, members: seq<Item>, rest: string)
    requires members != [] && Delimits(rest)
    requires forall i | 0 <= i < |members| :: EncodedItem(members[i]) && members[i] < v
    ensures ReadMembers(WrittenItems(members, true) + "}" + rest) ==
            if Fitting(Object(members)) then Got(members, rest) else Malformed
    decreases v, 0, |members|
  {
    hide ReadMembers, MoreMembers, ReadValue, WrittenItems, Written, After, Fitting, IsStringBody, Delimits, Encoded;
    var item, t := members[0], After(members, "}", rest);
    FirstItem(members, "}", rest);
    NextItem(members, "}", rest);
    AfterDelimits(members, "}", rest);
    FittingSplits(members);
    if item.Bare? {
      NamelessMember(item, t);
    } else {
      var u := Written(item.value) + t;
      assert WrittenItem(item) + t == QUOTE + item.name + QUOTE + ":" + u;
      ReadsMember(item.name, u);
      WrittenReads(item.value, t);
      if |members| == 1 {
        MoreMembersClosed(item, rest);
        assert members == [item];
      } else {
        var more := members[1..];
        MembersRead(v, more, rest);
        MoreMembersFollow(item, WrittenItems(more, true) + "}" + rest);
        assert [item] + more == members;
      }
    }
  }

  lemma {:induction false} ElementsRead(v: Value, elements: seq<Item>, rest: string)
    requires elements != [] && Delimits(rest)
    requires forall i | 0 <= i < |elements| :: EncodedItem(elements[i]) && elements[i] < v
    ensures ReadElements(WrittenItems(elements, true) + "]" + rest) ==
            if Fitting(Array(elements)) then Got(elements, rest) else Malformed
    decreases v, 0, |elements|
  {
    hide MoreElements, ReadValue, WrittenItems, Written, After, Fitting, IsStringBody, Delimits, Encoded;
    var item, t := elements[0], After(elements, "]", rest);
    FirstItem(elements, "]", rest);
    NextItem(elements, "]", rest);
    AfterDelimits(elements, "]", rest);
    FittingSplits(elements);
    if item.Named? {
      NamedElement(item, t);
    } else {
      WrittenReads(item.value, t);
      if |elements| == 1 {
        MoreMembersClosed(item, rest);
        assert elements == [item];
      } else {
        var more := elements[1..];
        ElementsRead(v, more, rest);
        MoreMembersFollow(item, WrittenItems(more, true) + "]" + rest);
        assert [item] + more == elements;
      }
    }
  }

  /** A document is one value, and the value that was asked for, exactly when every call fits its scope. */
  lemma DocumentReads(v: Value)
    requires Encoded(v)
    ensures Read(Written(v)) == if Fitting(v) then Got(v, "") else Malformed
  {
    hide ReadValue, Written, Fitting, Encoded;
    WrittenReads(v, "");
    assert Written(v) + "" == Written(v);
  }

  // ---------- The writer ----------

  function Separator(first: bool): string { if first then "" else "," }

  class Response {
    var body: string

    constructor ()
      ensures body == ""
    {
      body := "";
    }

    method Write(text: string)
      modifies this
      ensures body == old(body) + text
    {
      body := body + text;
    }
  }

  /** One open scope. A scope that was moved from has no response: it writes and closes nothing. */
  class Json {
    var response: Response?
    const scopeEnd: char
    var first: bool

    constructor Root(r: Response)
      modifies r
      ensures response == r && scopeEnd == '}' && first && r.body == old(r.body) + "{"
    {
      response, scopeEnd, first := r, '}', true;
      new;
      r.Write("{");
    }

    constructor Inside(j: Json, scope: char, endScope: char)
      requires j.response != null
      modifies j.response
      ensures response == j.response && scopeEnd == endScope && first
      ensures j.response.body == old(j.response.body) + [scope]
    {
      response, scopeEnd, first := j.response, endScope, true;
      new;
      j.response.Write([scope]);
    }

    constructor Move(j: Json)
      modifies j`response
      ensures response == old(j.response) && scopeEnd == j.scopeEnd && first == j.first && j.response == null
    {
      response, scopeEnd, first := j.response, j.scopeEnd, j.first;
      new;
      j.response := null;
    }

    method StartValue()
      requires response != null
      modifies this`first, response
      ensures !first && response.body == old(response.body) + Separator(old(first))
    {
      if first {
        first := false;
      } else {
        response.Write(",");
      }
    }

    method AddName(name: string) returns (open: bool)
      modifies this`first, response
      ensures open <==> response != null
      ensures open ==>
          !first && response.body == old(response.body) + Separator(old(first)) + Label(name)
      ensures !open ==> first == old(first)
    {
      if response == null {
        return false;
      }
      StartValue();
      response.Write(QUOTE);
      response.Write(name);
      response.Write(QUOTE + ":");
      return true;
    }

    method SetString(name: string, value: string)
      modifies this`first, response
      ensures response != null ==>
          !first && response.body == old(response.body) + Separator(old(first)) + WrittenItem(Named(name, Text(value)))
      ensures response == null ==> first == old(first)
    {
      var open := AddName(name);
      if open {
        response.Write(QUOTE);
        response.Write(value);
        response.Write(QUOTE);
        Appended(old(response.body), Separator(old(first)), name, QUOTE + value + QUOTE);
      }
    }

    method SetNumber(name: string, value: string)
      modifies this`first, response
      ensures response != null ==>
          && !first
          && response.body == old(response.body) + Separator(old(first)) + WrittenItem(Named(name, Number(value)))
      ensures response == null ==> first == old(first)
    {
      var open := AddName(name);
      if open {
        response.Write(value);
        Appended(old(response.body), Separator(old(first)), name, value);
      }
    }

    method SetBoolean(name: string, value: bool)
      modifies this`first, response
      ensures response != null ==>
          && !first
          && response.body == old(response.body) + Separator(old(first)) + WrittenItem(Named(name, Boolean(value)))
      ensures response == null ==> first == old(first)
    {
      var open := AddName(name);
      if open {
        response.Write(if value then "true" else "false");
        Appended(old(response.body), Separator(old(first)), name, if value then "true" else "false");
      }
    }

    method SetNull(name: string)
      modifies this`first, response
      ensures response != null ==>
          !first && response.body == old(response.body) + Separator(old(first)) + WrittenItem(Named(name, Null))
      ensures response == null ==> first == old(first)
    {
      var open := AddName(name);
      if open {
        response.Write("null");
        Appended(old(response.body), Separator(old(first)), name, "null");
      }
    }

    method AddObject(name: string) returns (j: Json)
      requires response != null
      modifies this`first, response
      ensures fresh(j) && j.response == response && j.first && j.scopeEnd == '}' && !first
      ensures response.body == old(response.body) + Separator(old(first)) + Label(name) + "{"
    {
      var open := AddName(name);
      j := new Json.Inside(this, '{', '}');
    }

    method AddArrayObject() returns (j: Json)
      requires response != null
      modifies this`first, response
      ensures fresh(j) && j.response == response && j.first && j.scopeEnd == '}' && !first
      ensures response.body == old(response.body) + Separator(old(first)) + "{"
    {
      StartValue();
      j := new Json.Inside(this, '{', '}');
    }

    method AddArray(name: string) returns (j: Json)
      requires response != null
      modifies this`first, response
      ensures fresh(j) && j.response == response && j.first && j.scopeEnd == ']' && !first
      ensures response.body == old(response.body) + Separator(old(first)) + Label(name) + "["
    {
      var open := AddName(name);
      j := new Json.Inside(this, '[', ']');
    }

    /** The destructor. */
    method Close()
      modifies response
      ensures response != null ==> response.body == old(response.body) + [scopeEnd]
    {
      if response != null {
        response.Write([scopeEnd]);
      }
    }
  }

  lemma Appended(body: string, separator: string, name: string, value: string)
    ensures body + separator + Label(name) + value == body + separator + (Label(name) + value)
  {
  }

  // ---------- A client: one scope object per object or array, closed innermost first ----------

  /** The calls for the items of the scope `j`. `whole` is a value that contains them. */
  method WriteItems(j: Json, items: seq<Item>, ghost whole: Value)
    requires j.response != null
    requires forall i | 0 <= i < |items| :: EncodedItem(items[i]) && items[i] < whole
    modifies j`first, j.response
    ensures j.response.body == old(j.response.body) + WrittenItems(items, old(j.first))
    decreases whole, |items|
  {
    hide Written, IsStringBody, IsNumber;
    if items == [] {
      return;
    }
    ghost var body, separator := j.response.body, Separator(j.first);
    var item := items[0];
    WriteItem(j, item);
    WriteItems(j, items[1..], whole);
    assert body + separator + WrittenItem(item) + WrittenItems(items[1..], false)
        == body + (separator + WrittenItem(item) + WrittenItems(items[1..], false));
  }

  method WriteItem(j: Json, item: Item)
    requires j.response != null && EncodedItem(item)
    modifies j`first, j.response
    ensures !j.first && j.response.body == old(j.response.body) + Separator(old(j.first)) + WrittenItem(item)
    decreases item, 0
  {
    hide IsStringBody, IsNumber, WrittenItems, Label, Separator;
    ghost var before := j.response.body + Separator(j.first);
    if item.Bare? {
      var inner := j.AddArrayObject();
      WriteItems(inner, item.value.members, item.value);
      inner.Close();
      Enclosed(before, "", "{", WrittenItems(item.value.members, true), "}");
      assert before + "" == before;
      assert "" + ("{" + WrittenItems(item.value.members, true) + "}") == Written(item.value);
      return;
    }
    match item.value {
      case Text(body) => j.SetString(item.name, body);
      case Number(digits) => j.SetNumber(item.name, digits);
      case Boolean(b) => j.SetBoolean(item.name, b);
      case Null => j.SetNull(item.name);
      case Object(members) =>
        var inner := j.AddObject(item.name);
        WriteItems(inner, members, item.value);
        inner.Close();
        Enclosed(before, Label(item.name), "{", WrittenItems(members, true), "}");
      case Array(elements) =>
        var inner := j.AddArray(item.name);
        WriteItems(inner, elements, item.value);
        inner.Close();
        Enclosed(before, Label(item.name), "[", WrittenItems(elements, true), "]");
    }
  }

  lemma Enclosed(before: string, name: string, open: string, text: string, close: string)
    ensures before + name + open + text + close == before + (name + (open + text + close))
  {
  }

  /** A whole document: it reads back as what was asked for exactly when every call fits its scope. */
  method WriteDocument(r: Response, v: Value)
    requires v.Object? && Encoded(v) && r.body == ""
    modifies r
    ensures r.body == Written(v)
    ensures Read(r.body) == if Fitting(v) then Got(v, "") else Malformed
  {
    hide IsStringBody, IsNumber, Read;
    var json := new Json.Root(r);
    WriteItems(json, v.members, v);
    json.Close();
    DocumentReads(v);
  }
}
