/** The path of names and indices that the JSON reader keeps in one character buffer, and how it is rendered. */
module JsonPath {

  const NUL: char := '\0'

  /** The names of the open scopes as they lie in the buffer: each followed by a NUL. */
  function Laid(names: seq<string>): string {
    if names == [] then "" else Laid(names[..|names| - 1]) + names[|names| - 1] + [NUL]
  }

  /** The names with `separator` between them. */
  function Join(names: seq<string>, separator: char): string {
    if names == [] then ""
    else if |names| == 1 then names[0]
    else Join(names[..|names| - 1], separator) + [separator] + names[|names| - 1]
  }

  function Replaced(s: string, separator: char): (r: string)
    ensures |r| == |s|
  {
    seq(|s|, i requires 0 <= i < |s| => if s[i] != NUL then s[i] else separator)
  }

  /** Separators at the end are cut off, but a first character stays. */
  function Trimmed(s: string, separator: char): string {
    if |s| > 1 && s[|s| - 1] == separator then Trimmed(s[..|s| - 1], separator) else s
  }

  /** What getTotalString gives for open scopes `names` and a segment `current` being read. */
  function Rendered(names: seq<string>, current: string, separator: char): string {
    Trimmed(Replaced(Laid(names) + current, separator), separator)
  }

  predicate NoNul(names: seq<string>) {
    forall i | 0 <= i < |names| :: NUL !in names[i]
  }

  predicate Plain(name: string, separator: char) {
    name != "" && NUL !in name && separator !in name
  }

  predicate AllPlain(names: seq<string>, separator: char) {
    forall i | 0 <= i < |names| :: Plain(names[i], separator)
  }

  lemma ReplacedJoins(a: string, b: string, separator: char)
    ensures Replaced(a + b, separator) == Replaced(a, separator) + Replaced(b, separator)
  {
  }

  lemma ReplacedPlain(s: string, separator: char)
    requires NUL !in s
    ensures Replaced(s, separator) == s
  {
  }

  /** With its NULs replaced, the buffer is the join of the open names and the current segment. */
  lemma {:induction false} LaidIsJoin(names: seq<string>, current: string, separator: char)
    requires NoNul(names) && NUL !in current
    ensures Replaced(Laid(names) + current, separator) == Join(names + [current], separator)
  {
    ReplacedJoins(Laid(names), current, separator);
    ReplacedPlain(current, separator);
    var all := names + [current];
    assert all[..|all| - 1] == names;
    if names != [] {
      var n := |names| - 1;
      LaidIsJoin(names[..n], names[n], separator);
      assert names[..n] + [names[n]] == names;
      ReplacedJoins(Laid(names[..n]) + names[n], [NUL], separator);
      assert Replaced([NUL], separator) == [separator];
    }
  }

  /** With no segment begun, the rendered path is the join of the open names exactly when that join has a character
      and does not end, behind its first character, in a separator. */
  lemma RenderedIsJoinIff(names: seq<string>, separator: char)
    requires NoNul(names) && names != []
    ensures Rendered(names, "", separator) == Join(names, separator) <==>
            var path := Join(names, separator);
            path != "" && (|path| == 1 || path[|path| - 1] != separator)
  {
    hide Laid, Join, Replaced;
    LaidIsJoin(names, "", separator);
    var path := Join(names, separator);
    JoinEmpty(names, separator);
    assert (path + [separator])[..|path|] == path;
    if path != "" {
      TrimmedShorter(path, separator);
    }
  }

  lemma JoinEmpty(names: seq<string>, separator: char)
    requires names != []
    ensures Join(names + [""], separator) == Join(names, separator) + [separator]
  {
    var all := names + [""];
    assert all[..|all| - 1] == names;
  }

  lemma {:induction false} TrimmedShorter(s: string, separator: char)
    ensures |Trimmed(s, separator)| <= |s|
    ensures Trimmed(s, separator) == s <==> |s| <= 1 || s[|s| - 1] != separator
    decreases |s|
  {
    if |s| > 1 && s[|s| - 1] == separator {
      TrimmedShorter(s[..|s| - 1], separator);
    }
  }

  /** Only separators are cut off, as many as there are at the end, but never the first character. */
  lemma {:induction false} TrimmedCutsSeparators(s: string, separator: char)
    ensures var t := Trimmed(s, separator);
            && t <= s && (s != "" ==> t != "")
            && (forall i | |t| <= i < |s| :: s[i] == separator)
            && (|t| > 1 ==> t[|t| - 1] != separator)
    decreases |s|
  {
    if |s| > 1 && s[|s| - 1] == separator {
      TrimmedCutsSeparators(s[..|s| - 1], separator);
    }
  }

  lemma JoinEnds(names: seq<string>, separator: char)
    requires names != [] && AllPlain(names, separator)
    ensures var path := Join(names, separator); path != "" && path[|path| - 1] != separator
  {
    var name := names[|names| - 1];
    assert Plain(name, separator);
    assert name[|name| - 1] in name;
  }

  /** For names that are not empty and hold no separator the path is the join, segment begun or not. */
  lemma PlainPathIsJoin(names: seq<string>, current: string, separator: char)
    requires AllPlain(names, separator) && (current == "" || Plain(current, separator))
    ensures Rendered(names, current, separator) ==
            Join(if current == "" then names else names + [current], separator)
  {
    hide Laid, Join, Replaced, Trimmed;
    assert NoNul(names) by {
      assert forall i | 0 <= i < |names| :: Plain(names[i], separator);
    }
    if current != "" {
      LaidIsJoin(names, current, separator);
      JoinEnds(names + [current], separator);
      TrimmedShorter(Join(names + [current], separator), separator);
    } else if names != [] {
      RenderedIsJoinIff(names, separator);
      JoinEnds(names, separator);
    } else {
      LaidIsJoin(names, current, separator);
      assert names + [""] == [""];
      JoinOne("", separator);
      NothingOpen(separator);
    }
  }

  lemma JoinOne(name: string, separator: char)
    ensures Join([name], separator) == name && Join([], separator) == ""
  {
  }

  lemma NothingOpen(separator: char)
    ensures Join([], separator) == "" && Trimmed("", separator) == ""
  {
  }

  /** Where the last separator of a path is; -1 without one. */
  function LastAt(s: string, c: char): (k: int)
    ensures -1 <= k < |s| && (k >= 0 ==> s[k] == c) && forall i | k < i < |s| :: s[i] != c
  {
    if s == "" then -1 else if s[|s| - 1] == c then |s| - 1 else LastAt(s[..|s| - 1], c)
  }

  lemma {:induction false} LastIs(head: string, name: string, c: char)
    requires c !in name
    ensures LastAt(head + [c] + name, c) == |head|
  {
    var s := head + [c] + name;
    if name != "" {
      var n := |name| - 1;
      assert s[|s| - 1] == name[n];
      assert s[..|s| - 1] == head + [c] + name[..n];
      LastIs(head, name[..n], c);
    }
  }

  /** Cuts a path at its separators. */
  function Split(path: string, separator: char): seq<string>
    decreases |path|
  {
    var k := LastAt(path, separator);
    if k < 0 then if path == "" then [] else [path]
    else Split(path[..k], separator) + [path[k + 1..]]
  }

  /** The path of plain names says which names are open. */
  lemma {:induction false} SplitJoin(names: seq<string>, separator: char)
    requires AllPlain(names, separator)
    ensures Split(Join(names, separator), separator) == names
  {
    if |names| == 1 {
      assert Plain(names[0], separator);
    } else if |names| > 1 {
      var n := |names| - 1;
      var head, path := Join(names[..n], separator), Join(names, separator);
      SplitJoin(names[..n], separator);
      assert Plain(names[n], separator);
      assert path == head + [separator] + names[n];
      LastIs(head, names[n], separator);
      assert path[..|head|] == head && path[|head| + 1..] == names[n];
    }
  }

  // ---------- Indices ----------

  /** Division and remainder of the source: truncated towards zero. */
  function Quotient(a: int, b: nat): int requires b > 0 { if a >= 0 then a / b else -((-a) / b) }

  function Remainder(a: int, b: nat): int requires b > 0 { a - b * Quotient(a, b) }

  /** Adding to '0' and narrowing to eight bits. */
  function FromZero(n: int): char { ((48 + n) % 256) as char }

  function Hundreds(index: int): char { FromZero(Quotient(index, 100)) }

  function Tens(index: int): char { FromZero(Quotient(Remainder(index, 100), 10)) }

  function Units(index: int): char { FromZero(Remainder(index, 10)) }

  function IndexText(index: int): string {
    (if index >= 100 then [Hundreds(index)] else "")
    + (if index >= 10 then [Tens(index)] else "")
    + [Units(index)]
  }

  function DecimalNat(n: nat): (s: string)
    ensures s != "" && (n >= 10 ==> |s| > 1) && (n >= 100 ==> |s| > 2) && (n >= 1000 ==> |s| > 3)
    ensures forall i | 0 <= i < |s| :: '0' <= s[i] <= '9'
  {
    if n < 10 then [(48 + n) as char] else DecimalNat(n / 10) + [(48 + n % 10) as char]
  }

  function Decimal(index: int): string {
    if index >= 0 then DecimalNat(index) else "-" + DecimalNat(-index)
  }

  lemma IndexLength(index: int)
    ensures |IndexText(index)| == if index >= 100 then 3 else if index >= 10 then 2 else 1
  {
    hide FromZero, Quotient, Remainder;
  }

  lemma OneDigit(n: nat)
    requires n < 10
    ensures DecimalNat(n) == [FromZero(n)]
  {
  }

  lemma LastDigit(n: nat)
    requires n >= 10
    ensures DecimalNat(n) == DecimalNat(n / 10) + [FromZero(n % 10)]
  {
  }

  lemma PlainDivision(n: nat, b: nat)
    requires b > 0
    ensures Quotient(n, b) == n / b && Remainder(n, b) == n % b
  {
  }

  lemma DigitsOf(n: nat)
    ensures n < 10 ==> DecimalNat(n) == [FromZero(Remainder(n, 10))]
    ensures 10 <= n < 100 ==> DecimalNat(n) == [FromZero(Quotient(Remainder(n, 100), 10)), FromZero(Remainder(n, 10))]
  {
    hide FromZero, DecimalNat, Quotient, Remainder;
    PlainDivision(n, 10);
    PlainDivision(n, 100);
    PlainDivision(n % 100, 10);
    if n < 10 {
      OneDigit(n);
    } else if n < 100 {
      OneDigit(n / 10);
      LastDigit(n);
    }
  }

  lemma MiddleDigit(n: nat)
    requires n <= 999
    ensures n / 10 / 10 == n / 100 && n / 10 % 10 == n % 100 / 10 && n / 10 % 100 == n / 10
  {
  }

  lemma DigitsOfHundreds(n: nat)
    requires 100 <= n <= 999
    ensures DecimalNat(n) ==
            [FromZero(Quotient(n, 100)), FromZero(Quotient(Remainder(n, 100), 10)), FromZero(Remainder(n, 10))]
  {
    hide FromZero, DecimalNat, Quotient, Remainder;
    var tens := n / 10;
    MiddleDigit(n);
    LastDigit(n);
    DigitsOf(tens);
    PlainDivision(n, 10);
    PlainDivision(n, 100);
    PlainDivision(n % 100, 10);
    PlainDivision(tens, 10);
    PlainDivision(tens, 100);
  }

  /** The range test of the source only builds its error and goes on; the digits are right exactly inside the range. */
  lemma IndexTextIsDecimalIff(index: int)
    ensures IndexText(index) == Decimal(index) <==> 0 <= index <= 999
  {
    hide FromZero, Quotient, Remainder, DecimalNat;
    IndexLength(index);
    if 0 <= index <= 99 {
      DigitsOf(index);
    } else if 100 <= index <= 999 {
      DigitsOfHundreds(index);
    }
  }

  /** The number that a string of decimal digits stands for. */
  function Value(s: string): int {
    if s == "" then 0 else 10 * Value(s[..|s| - 1]) + (s[|s| - 1] as int - '0' as int)
  }

  lemma {:induction false} DecimalReadsBack(n: nat)
    ensures Value(DecimalNat(n)) == n && (|DecimalNat(n)| > 1 ==> DecimalNat(n)[0] != '0')
  {
    var s := DecimalNat(n);
    if n < 10 {
      assert s[..0] == "";
    } else {
      DecimalReadsBack(n / 10);
      assert s[..|s| - 1] == DecimalNat(n / 10);
      assert DecimalNat(n / 10)[0] != '0' by {
        if |DecimalNat(n / 10)| == 1 {
          OneDigit(n / 10);
        }
      }
    }
  }

  /** What indices outside the range leave in the path: -1 a separator, 1000 a colon for its first digit. */
  lemma OutsideTheRange()
    ensures IndexText(-1) == "/" && IndexText(1000) == ":00"
  {
    assert Quotient(1000, 100) == 10 && Remainder(1000, 100) == 0 && Remainder(1000, 10) == 0;
    assert Remainder(-1, 10) == -1;
  }

  // ---------- Entering and leaving scopes ----------

  datatype Step = Enter(name: string) | EnterIndex(index: int) | Leave

  /** The open names after a number of steps; at the top there is nothing to leave. */
  function Follow(names: seq<string>, steps: seq<Step>): seq<string>
    decreases |steps|
  {
    if steps == [] then names else Follow(Opened(names, steps[0]), steps[1..])
  }

  function Opened(names: seq<string>, step: Step): seq<string> {
    match step
    case Enter(name) => names + [name]
    case EnterIndex(index) => names + [IndexText(index)]
    case Leave => if names == [] then names else names[..|names| - 1]
  }

  /** How deep the steps lead from depth `depth`, or -1 when they would leave a scope that they did not enter. */
  function DepthAfter(depth: nat, steps: seq<Step>): int
    decreases |steps|
  {
    if steps == [] then depth
    else if !steps[0].Leave? then DepthAfter(depth + 1, steps[1..])
    else if depth == 0 then -1
    else DepthAfter(depth - 1, steps[1..])
  }

  lemma {:induction false} FollowKeepsOuter(names: seq<string>, entered: seq<string>, steps: seq<Step>)
    requires DepthAfter(|entered|, steps) >= 0
    ensures names <= Follow(names + entered, steps)
    ensures |Follow(names + entered, steps)| == |names| + DepthAfter(|entered|, steps)
    decreases |steps|
  {
    if steps != [] {
      match steps[0]
      case Enter(name) =>
        assert names + entered + [name] == names + (entered + [name]);
        FollowKeepsOuter(names, entered + [name], steps[1..]);
      case EnterIndex(index) =>
        assert names + entered + [IndexText(index)] == names + (entered + [IndexText(index)]);
        FollowKeepsOuter(names, entered + [IndexText(index)], steps[1..]);
      case Leave =>
        var last := |entered| - 1;
        assert (names + entered)[..|names| + last] == names + entered[..last];
        FollowKeepsOuter(names, entered[..last], steps[1..]);
    }
  }

  /** Steps that leave each scope they enter, and no other, restore the open names and with them the rendered path. */
  lemma BalancedStepsRestore(names: seq<string>, steps: seq<Step>, separator: char)
    requires DepthAfter(0, steps) == 0
    ensures Follow(names, steps) == names
    ensures Rendered(Follow(names, steps), "", separator) == Rendered(names, "", separator)
  {
    hide Follow, DepthAfter, Rendered;
    FollowKeepsOuter(names, [], steps);
    assert names + [] == names;
  }

  predicate PlainStep(step: Step, separator: char) {
    match step
    case Enter(name) => Plain(name, separator)
    case EnterIndex(index) => 0 <= index <= 999
    case Leave => true
  }

  lemma {:induction false} FollowIsPlain(names: seq<string>, steps: seq<Step>, separator: char)
    requires AllPlain(names, separator) && !('0' <= separator <= '9')
    requires forall i | 0 <= i < |steps| :: PlainStep(steps[i], separator)
    ensures AllPlain(Follow(names, steps), separator)
    decreases |steps|
  {
    hide IndexText, Plain;
    if steps != [] {
      assert PlainStep(steps[0], separator);
      match steps[0]
      case Enter(name) => FollowIsPlain(names + [name], steps[1..], separator);
      case EnterIndex(index) =>
        IndexIsPlain(index, separator);
        FollowIsPlain(names + [IndexText(index)], steps[1..], separator);
      case Leave =>
        FollowIsPlain(if names == [] then names else names[..|names| - 1], steps[1..], separator);
    }
  }

  lemma IndexIsPlain(index: int, separator: char)
    requires 0 <= index <= 999 && !('0' <= separator <= '9')
    ensures Plain(IndexText(index), separator)
  {
    hide IndexText, DecimalNat;
    IndexTextIsDecimalIff(index);
    var digits := DecimalNat(index);
    assert forall i | 0 <= i < |digits| :: '0' <= digits[i] <= '9';
  }

  /** After any steps the rendered path is the join of the names and decimal indices that are open, and says which
      they are. */
  lemma PathAfterSteps(steps: seq<Step>, separator: char)
    requires !('0' <= separator <= '9') && forall i | 0 <= i < |steps| :: PlainStep(steps[i], separator)
    ensures Rendered(Follow([], steps), "", separator) == Join(Follow([], steps), separator)
    ensures Split(Rendered(Follow([], steps), "", separator), separator) == Follow([], steps)
  {
    hide Follow, Rendered, Join, Split;
    FollowIsPlain([], steps, separator);
    PlainPathIsJoin(Follow([], steps), "", separator);
    SplitJoin(Follow([], steps), separator);
  }

  // ---------- The reader's stack ----------

  /** As much of `s` as there is room for. */
  function Take(s: string, room: nat): (t: string)
    ensures t <= s && |t| == (if |s| <= room then |s| else room)
  {
    if |s| <= room then s else s[..room]
  }

  lemma TakeOneMore(s: string, text: string, c: char, room: nat)
    ensures Take(Take(s + text, room) + [c], room) == Take(s + (text + [c]), room)
  {
    assert s + (text + [c]) == s + text + [c];
  }

  lemma TakeNothing(s: string, room: nat)
    requires |s| <= room
    ensures Take(s + "", room) == s
  {
    assert s + "" == s;
  }

  class PathStack {
    const start: array<char>
    const rendered: array<char>
    const stack: array<nat>
    var local: nat
    var at: nat
    var stackAt: nat
    ghost var names: seq<string>

    ghost predicate Valid()
      reads this, start, stack
    {
      && 2 < start.Length == rendered.Length && start != rendered && 1 < stack.Length
      && local < start.Length - 2 && local <= at < start.Length && start[at] == NUL
      && stackAt == |names| < stack.Length
      && start[..local] == Laid(names)
      && forall i | 0 <= i <= stackAt :: stack[i] == |Laid(names[..i])|
    }

    ghost function Current(): string
      reads this, start, stack
      requires Valid()
    {
      start[local..at]
    }

    constructor (length: nat, depth: nat)
      requires 1 < length < 1048576 && 1 < depth < 1024
      ensures Valid() && names == [] && Current() == "" && start.Length == length + 1 && stack.Length == depth
      ensures fresh(start) && fresh(stack) && fresh(rendered)
    {
      start := new char[length + 1](_ => NUL);
      rendered := new char[length + 1](_ => NUL);
      stack := new nat[depth](_ => 0);
      local, at, stackAt, names := 0, 0, 0, [];
    }

    /** How long the segment being read can get. */
    ghost function Room(): nat
      reads this, start, stack
      requires Valid()
    {
      start.Length - 1 - local
    }

    lemma CurrentFits()
      requires Valid()
      ensures |Current()| <= Room()
    {
    }

    /** What was cut for lack of room fills the buffer. */
    lemma NothingCut(s: string)
      requires Valid() && Current() == Take(s, Room())
      ensures at + 1 < start.Length - 2 ==> Current() == s
    {
    }

    method AddChar(c: char) returns (added: bool)
      requires Valid()
      modifies this`at, start
      ensures Valid() && added == (old(at) < start.Length - 1)
      ensures Room() == old(Room()) && Current() == Take(old(Current()) + [c], Room())
    {
      ghost var before := start[..];
      if at < start.Length - 1 {
        start[at] := c;
        at := at + 1;
        start[at] := NUL;
        assert start[..local] == before[..local];
        assert start[local..at] == before[local..at - 1] + [c];
        return true;
      }
      return false;
    }

    /** A new segment begins; false stands for the range error. */
    method SetLocal(newValue: nat) returns (ok: bool)
      requires 2 < start.Length
      modifies this`local, this`at, start
      ensures ok == (newValue < start.Length - 2)
      ensures ok ==> local == at == newValue && start[..] == old(start[..])[newValue := NUL]
      ensures !ok ==> local == old(local) && at == old(at) && start[..] == old(start[..])
    {
      if newValue < start.Length - 2 {
        local := newValue;
        at := local;
        start[at] := NUL;
        return true;
      }
      return false;
    }

    /** Makes the segment just read the name of a new scope, where there is room for the next one. */
    method Push() returns (ok: bool)
      requires Valid() && stackAt < stack.Length - 1
      modifies this`local, this`at, this`stackAt, this`names, start, stack
      ensures Valid()
      ensures ok == (old(at) + 1 < start.Length - 2)
      ensures names == if ok then old(names) + [old(Current())] else old(names)
      ensures Current() == if ok then "" else old(Current())
    {
      ghost var before, name, oldAt := start[..], Current(), at;
      ghost var olds := names;
      ok := SetLocal(at + 1);
      if !ok {
        return;
      }
      stackAt := stackAt + 1;
      stack[stackAt] := local;
      names := names + [name];
      LaidPush(before, start[..], olds, name, oldAt);
      assert names[..stackAt] == names;
      forall i | 0 <= i <= stackAt
        ensures stack[i] == |Laid(names[..i])|
      {
        if i < stackAt {
          assert names[..i] == olds[..i];
        }
      }
    }

    /** The name reported by the parser need only begin with the segment read. */
    method PushName(name: string) returns (ok: bool)
      requires Valid() && NUL !in name && NUL !in Current()
      modifies this`local, this`at, this`stackAt, this`names, start, stack
      ensures Valid()
      ensures ok <==> old(Current()) <= name && old(|names|) < stack.Length - 1 && old(at) + 1 < start.Length - 2
      ensures names == if ok then old(names) + [old(Current())] else old(names)
      ensures Current() == if ok then "" else old(Current())
    {
      var n := at - local;
      if n <= |name| && start[local..at] == name[..n] {
        if stackAt >= stack.Length - 1 {
          return false;
        }
        ok := Push();
        return;
      }
      return false;
    }

    /** One more digit behind those in `text`. */
    method AddDigit(digit: char, ghost before: string, ghost text: string)
      requires Valid() && Current() == Take(before + text, Room())
      modifies this`at, start
      ensures Valid() && Room() == old(Room()) && Current() == Take(before + (text + [digit]), Room())
    {
      hide PathStack.Valid, PathStack.Current, PathStack.Room, Take;
      TakeOneMore(before, text, digit, Room());
      var added := AddChar(digit);
    }

    /** The digits of an index go into the segment being read, as far as there is room. */
    method AddIndex(index: int)
      requires Valid()
      modifies this`at, start
      ensures Valid() && Current() == Take(old(Current()) + IndexText(index), Room())
    {
      hide Hundreds, Tens, Units, PathStack.Valid, PathStack.Current, PathStack.Room, Take;
      ghost var before, text := Current(), "";
      CurrentFits();
      TakeNothing(before, Room());
      if index >= 100 {
        AddDigit(Hundreds(index), before, text);
        text := [Hundreds(index)];
      }
      if index >= 10 {
        AddDigit(Tens(index), before, text);
        text := text + [Tens(index)];
      }
      AddDigit(Units(index), before, text);
      assert text + [Units(index)] == IndexText(index);
    }

    method PushIndex(index: int) returns (ok: bool)
      requires Valid()
      modifies this`local, this`at, this`stackAt, this`names, start, stack
      ensures Valid()
      ensures ok <==> old(|names|) < stack.Length - 1 && old(at) + |IndexText(index)| + 1 < start.Length - 2
      ensures ok ==> names == old(names) + [old(Current()) + IndexText(index)] && Current() == ""
      ensures !ok ==> names == old(names)
    {
      if stackAt >= stack.Length - 1 {
        return false;
      }
      AddIndex(index);
      ok := Push();
    }

    /** Closes the innermost scope and drops its name and all that was read since. */
    method Pop() returns (ok: bool)
      requires Valid()
      modifies this`local, this`at, this`stackAt, this`names, start
      ensures Valid()
      ensures ok <==> old(names) != []
      ensures ok ==> names == old(names)[..|old(names)| - 1] && Current() == ""
      ensures !ok ==> names == old(names) && Current() == old(Current())
    {
      if stackAt == 0 {
        return false;
      }
      hide Laid;
      ghost var before, oldLocal, olds := start[..], local, names;
      stackAt := stackAt - 1;
      names := names[..stackAt];
      LaidPop(olds);
      assert olds[..stackAt] == names && olds[..|olds|] == olds;
      ok := SetLocal(stack[stackAt]);
      assert start[..local] == before[..oldLocal][..local];
      forall i | 0 <= i <= stackAt
        ensures stack[i] == |Laid(names[..i])|
      {
        assert names[..i] == olds[..i];
      }
    }

    /** The parser reads a name character by character. */
    method ReadName(name: string)
      requires Valid()
      modifies this`at, start
      ensures Valid() && Current() == Take(old(Current()) + name, Room())
    {
      hide PathStack.Valid, PathStack.Current, PathStack.Room, Take;
      ghost var before, room := Current(), Room();
      CurrentFits();
      TakeNothing(before, room);
      assert name[..0] == "";
      for i := 0 to |name|
        invariant Valid() && Room() == room && Current() == Take(before + name[..i], room)
      {
        var added := AddChar(name[i]);
        TakeOneMore(before, name[..i], name[i], room);
        assert name[..i] + [name[i]] == name[..i + 1];
      }
      assert name[..|name|] == name;
    }

    /** Steps of the parser, up to the first that is refused for lack of depth or room, or at the top. */
    method Walk(steps: seq<Step>) returns (ok: bool)
      requires Valid() && Current() == ""
      requires forall i | 0 <= i < |steps| && steps[i].Enter? :: NUL !in steps[i].name
      modifies this`local, this`at, this`stackAt, this`names, start, stack
      ensures Valid()
      ensures ok ==> names == Follow(old(names), steps) && Current() == ""
    {
      hide Laid, IndexText, PathStack.Valid, PathStack.Current, PathStack.Room, Take;
      for i := 0 to |steps|
        invariant Valid() && Current() == ""
        invariant Follow(names, steps[i..]) == Follow(old(names), steps)
      {
        ghost var before := names;
        assert steps[i..][0] == steps[i] && steps[i..][1..] == steps[i + 1..];
        match steps[i] {
          case Enter(name) =>
            ReadName(name);
            assert "" + name == name;
            NothingCut(name);
            ok := PushName(name);
            assert ok ==> names == before + [name];
          case EnterIndex(index) =>
            assert "" + IndexText(index) == IndexText(index);
            ok := PushIndex(index);
          case Leave =>
            ok := Pop();
        }
        if !ok {
          return;
        }
        assert names == Opened(before, steps[i]);
      }
      assert steps[|steps|..] == [];
      return true;
    }

    /** getTotalString */
    method GetTotalString(separator: char) returns (length: nat)
      requires Valid()
      modifies rendered
      ensures length < rendered.Length && rendered[length] == NUL
      ensures rendered[..length] == Rendered(names, Current(), separator)
    {
      hide Trimmed, Laid;
      var src := 0;
      while src < at
        invariant src <= at
        invariant forall i | 0 <= i < src :: rendered[i] == if start[i] != NUL then start[i] else separator
        invariant start[..] == old(start[..])
      {
        var c := start[src];
        rendered[src] := if c != NUL then c else separator;
        src := src + 1;
      }
      ghost var all := rendered[..at];
      assert start[..at] == Laid(names) + Current() by {
        assert start[..at] == start[..local] + start[local..at];
      }
      assert all == Replaced(start[..at], separator);
      assert all[..at] == all;
      var dst: int := at - 1;
      while dst > 0 && rendered[dst] == separator
        invariant -1 <= dst < at && (at > 0 ==> dst >= 0)
        invariant rendered[..at] == all
        invariant Trimmed(all, separator) == Trimmed(all[..dst + 1], separator)
      {
        TrimOne(all, dst, separator);
        dst := dst - 1;
      }
      TrimEnd(all, dst + 1, separator);
      dst := dst + 1;
      ghost var text := rendered[..dst];
      assert text == all[..dst];
      rendered[dst] := NUL;
      length := dst;
      assert rendered[..length] == text;
    }
  }

  lemma TrimOne(s: string, k: nat, separator: char)
    requires 0 < k < |s| && s[k] == separator
    ensures Trimmed(s[..k + 1], separator) == Trimmed(s[..k], separator)
  {
    assert s[..k + 1][..k] == s[..k];
  }

  lemma TrimEnd(s: string, n: nat, separator: char)
    requires n <= |s| && (n <= 1 || s[n - 1] != separator)
    ensures Trimmed(s[..n], separator) == s[..n]
  {
  }

  lemma LaidPush(before: string, after: string, names: seq<string>, name: string, at: nat)
    requires |Laid(names)| <= at < |before| == |after| && at + 1 < |after|
    requires before[..|Laid(names)|] == Laid(names) && before[|Laid(names)|..at] == name && before[at] == NUL
    requires after == before[at + 1 := NUL]
    ensures after[..at + 1] == Laid(names + [name])
  {
    var all := names + [name];
    assert all[..|all| - 1] == names;
    assert after[..at + 1] == before[..|Laid(names)|] + before[|Laid(names)|..at] + [before[at]];
  }

  lemma LaidPop(names: seq<string>)
    requires names != []
    ensures |Laid(names[..|names| - 1])| < |Laid(names)|
    ensures Laid(names)[..|Laid(names[..|names| - 1])|] == Laid(names[..|names| - 1])
  {
  }
}
