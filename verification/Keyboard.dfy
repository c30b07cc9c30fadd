/** Key dispatch when any command may fail (keyboard.rs, keys.rs). */
module Keyboard {
  import opened Collections
  import opened Text
  import opened Utf8

  // ---------- keys ----------

  datatype KeyDef = KeyDef(key: string, text: Option<string>)

  datatype Modifier = Alt | Control | Meta | Shift

  const ALT_KEY := "Alt"
  const CONTROL_KEY := "Control"
  const META_KEY := "Meta"
  const SHIFT_KEY := "Shift"

  function NameOf(m: Modifier): string {
    match m
    case Alt => ALT_KEY
    case Control => CONTROL_KEY
    case Meta => META_KEY
    case Shift => SHIFT_KEY
  }

  function Silent(names: seq<string>): seq<KeyDef> {
    seq(|names|, i requires 0 <= i < |names| => KeyDef(names[i], None))
  }

  /** A key for each character, which types that character. */
  function Typing(chars: string): seq<KeyDef> {
    seq(|chars|, i requires 0 <= i < |chars| => KeyDef([chars[i]], Some([chars[i]])))
  }

  const ENTER: KeyDef := KeyDef("Enter", Some("\r"))
  const EDITING_KEYS: seq<string> :=
    ["Tab", "Escape", "Backspace", "Delete", "ArrowUp", "ArrowDown", "ArrowLeft", "ArrowRight", "Home", "End",
     "PageUp", "PageDown", "Insert"]
  const FUNCTION_KEYS: seq<string> :=
    ["F1", "F2", "F3", "F4", "F5", "F6", "F7", "F8", "F9", "F10", "F11", "F12"]
  const SILENT_KEYS: seq<string> := EDITING_KEYS + FUNCTION_KEYS
  const TYPING_KEYS: string := " abcdefghijklmnopqrstuvwxyz0123456789"

  /** The named key table; no two keys have the same name, so its order does not matter. */
  const TABLE: seq<KeyDef> := [ENTER] + Silent(SILENT_KEYS) + Typing(TYPING_KEYS)

  function FindKey(table: seq<KeyDef>, lower: string -> string, name: string): Option<KeyDef> {
    if table == [] then None
    else if lower(table[0].key) == lower(name) then Some(table[0])
    else FindKey(table[1..], lower, name)
  }

  /** `keys::lookup`, given Unicode lower-casing. */
  function Lookup(lower: string -> string, name: string): Option<KeyDef> {
    FindKey(TABLE, lower, name)
  }

  /** Unicode lower-casing does on ASCII text what ASCII lower-casing does. */
  ghost predicate LowersAscii(lower: string -> string) {
    forall s :: Ascii(s) ==> lower(s) == AsciiLower(s)
  }

  // ---------- the page ----------

  datatype Input = Down(key: string, text: Option<string>) | Up(key: string) | CharInput(chars: string)

  datatype Sent = Sent(input: Input, ok: bool)

  /** Keys whose down command succeeded. */
  function Pressed(log: seq<Sent>): multiset<string> {
    if log == [] then multiset{}
    else
      var front, last := Pressed(log[..|log| - 1]), log[|log| - 1];
      if last.ok && last.input.Down? then front + multiset{last.input.key} else front
  }

  /** Keys whose up command succeeded. */
  function Released(log: seq<Sent>): multiset<string> {
    if log == [] then multiset{}
    else
      var front, last := Released(log[..|log| - 1]), log[|log| - 1];
      if last.ok && last.input.Up? then front + multiset{last.input.key} else front
  }

  /** Every key that went down came up again or has a release guard pending. */
  predicate Safe(log: seq<Sent>, guards: multiset<string>) {
    Pressed(log) <= Released(log) + guards
  }

  /** The first `n` commands of the plan succeed and the next, if there is one, fails. */
  function SentUntil(plan: seq<Input>, n: nat): (r: seq<Sent>)
    requires n <= |plan|
    ensures |r| == if n < |plan| then n + 1 else n
    ensures forall i :: 0 <= i < |r| ==> r[i] == Sent(plan[i], i < n)
  {
    var sent := if n < |plan| then n + 1 else n;
    seq(sent, i requires 0 <= i < sent => Sent(plan[i], i < n))
  }

  function AllSent(plan: seq<Input>): (r: seq<Sent>)
    ensures |r| == |plan| && forall i :: 0 <= i < |r| ==> r[i] == Sent(plan[i], true)
  {
    SentUntil(plan, |plan|)
  }

  /** The commands sent are those planned, in order, up to the first that failed; `ok` is that none did. */
  ghost predicate Followed(before: seq<Sent>, after: seq<Sent>, plan: seq<Input>, ok: bool) {
    exists n: nat :: n <= |plan| && (ok <==> n == |plan|) && after == before + SentUntil(plan, n)
  }

  lemma FollowedAll(before: seq<Sent>, plan: seq<Input>)
    ensures Followed(before, before + AllSent(plan), plan, true)
    ensures forall after :: Followed(before, after, plan, true) ==> after == before + AllSent(plan)
  {
    assert before + AllSent(plan) == before + SentUntil(plan, |plan|);
  }

  lemma FollowedTaken(before: seq<Sent>, plan: seq<Input>, n: nat)
    requires n == |plan|
    ensures Followed(before, before + AllSent(plan[..n]), plan, true)
  {
    assert plan[..n] == plan;
    FollowedAll(before, plan);
  }

  lemma FollowedFails(before: seq<Sent>, plan: seq<Input>, n: nat)
    requires n < |plan|
    ensures Followed(before, before + AllSent(plan[..n]) + [Sent(plan[n], false)], plan, false)
  {
    assert AllSent(plan[..n]) + [Sent(plan[n], false)] == SentUntil(plan, n);
    assert before + AllSent(plan[..n]) + [Sent(plan[n], false)] == before + SentUntil(plan, n);
  }

  lemma AllSentNext(before: seq<Sent>, plan: seq<Input>, n: nat)
    requires n < |plan|
    ensures before + AllSent(plan[..n + 1]) == before + AllSent(plan[..n]) + [Sent(plan[n], true)]
  {
    assert AllSent(plan[..n + 1]) == AllSent(plan[..n]) + [Sent(plan[n], true)];
  }

  lemma FollowedThen(a: seq<Sent>, b: seq<Sent>, c: seq<Sent>, x: seq<Input>, y: seq<Input>, ok: bool)
    requires Followed(a, b, x, true) && Followed(b, c, y, ok)
    ensures Followed(a, c, x + y, ok)
  {
    FollowedAll(a, x);
    var n: nat :| n <= |y| && (ok <==> n == |y|) && c == b + SentUntil(y, n);
    SentUntilConcat(x, y, n);
    assert c == a + SentUntil(x + y, |x| + n);
  }

  lemma SentUntilConcat(x: seq<Input>, y: seq<Input>, n: nat)
    requires n <= |y|
    ensures SentUntil(x + y, |x| + n) == AllSent(x) + SentUntil(y, n)
  {
  }

  lemma FollowedStops(a: seq<Sent>, b: seq<Sent>, x: seq<Input>, y: seq<Input>)
    requires Followed(a, b, x, false)
    ensures Followed(a, b, x + y, false)
  {
    var n: nat :| n < |x| && b == a + SentUntil(x, n);
    assert SentUntil(x + y, n) == SentUntil(x, n);
  }

  lemma FollowedOne(before: seq<Sent>, input: Input, ok: bool)
    ensures Followed(before, before + [Sent(input, ok)], [input], ok)
  {
    var n := if ok then 1 else 0;
    assert SentUntil([input], n) == [Sent(input, ok)];
  }

  class Page {
    var log: seq<Sent>
    /** Release guards that are pending, by key. */
    var guards: multiset<string>

    ghost predicate SafePage()
      reads this
    {
      Safe(log, guards)
    }

    constructor ()
      ensures log == [] && guards == multiset{} && SafePage()
    {
      log, guards := [], multiset{};
    }

    /** One command; the browser decides whether it succeeds, and a failed one has no effect. */
    method Execute(input: Input) returns (ok: bool)
      modifies this`log
      ensures log == old(log) + [Sent(input, ok)]
      ensures Followed(old(log), log, [input], ok)
      ensures Pressed(log) == if ok && input.Down? then old(Pressed(log)) + multiset{input.key} else old(Pressed(log))
      ensures Released(log) == if ok && input.Up? then old(Released(log)) + multiset{input.key} else old(Released(log))
    {
      ok := *;
      log := log + [Sent(input, ok)];
      assert log[..|log| - 1] == old(log);
      FollowedOne(old(log), input, ok);
    }

    /** `execute_key_down_then_release_with_guard`. */
    method KeyDownThenRelease(key: string, text: Option<string>) returns (ok: bool)
      requires SafePage()
      modifies this
      ensures SafePage()
      ensures Followed(old(log), log, [Down(key, text), Up(key)], ok)
      ensures ok ==> guards == old(guards)
    {
      var down := Execute(Down(key, text));
      if !down {
        FollowedStops(old(log), log, [Down(key, text)], [Up(key)]);
        assert [Down(key, text)] + [Up(key)] == [Down(key, text), Up(key)];
        return false;
      }
      guards := guards + multiset{key};
      ghost var middle := log;
      ok := Execute(Up(key));
      FollowedThen(old(log), middle, log, [Down(key, text)], [Up(key)], ok);
      assert [Down(key, text)] + [Up(key)] == [Down(key, text), Up(key)];
      if ok {
        guards := guards - multiset{key};
      }
    }

    /** `execute_key_release_with_guard`. */
    method Release(key: string) returns (ok: bool)
      requires SafePage()
      modifies this
      ensures SafePage()
      ensures ok && key in old(guards) ==> Safe(log, old(guards) - multiset{key})
      ensures log == old(log) + [Sent(Up(key), ok)]
      ensures ok ==> guards == old(guards)
    {
      guards := guards + multiset{key};
      ok := Execute(Up(key));
      if ok {
        ReleaseCovers(old(Pressed(log)), old(Released(log)), old(guards), key);
        guards := guards - multiset{key};
      }
    }

    /** A modifier down, with its guard. */
    method Press(key: string) returns (ok: bool)
      requires SafePage()
      modifies this
      ensures SafePage()
      ensures log == old(log) + [Sent(Down(key, None), ok)]
      ensures guards == if ok then old(guards) + multiset{key} else old(guards)
    {
      ok := Execute(Down(key, None));
      if ok {
        guards := guards + multiset{key};
      }
    }

    /** A modifier up, and once that succeeded its guard dropped. */
    method LetGo(key: string) returns (ok: bool)
      requires SafePage() && key in guards
      modifies this
      ensures SafePage()
      ensures log == old(log) + [Sent(Up(key), ok)]
      ensures ok ==> guards == old(guards) - multiset{key}
    {
      ok := Release(key);
      if ok {
        guards := guards - multiset{key};
      }
    }
  }

  /** A successful release covers the key as well as its guard did. */
  lemma ReleaseCovers(pressed: multiset<string>, released: multiset<string>, guards: multiset<string>, key: string)
    requires pressed <= released + guards
    ensures pressed <= released + multiset{key} + guards
    ensures key in guards ==> pressed <= released + multiset{key} + (guards - multiset{key})
    ensures guards + multiset{key} - multiset{key} == guards
  {
    if key in guards {
      assert released + multiset{key} + (guards - multiset{key}) == released + guards;
    }
  }

  // ---------- key combinations ----------

  function Names(mods: seq<Modifier>): seq<string> {
    seq(|mods|, i requires 0 <= i < |mods| => NameOf(mods[i]))
  }

  function Downs(names: seq<string>): seq<Input> {
    seq(|names|, i requires 0 <= i < |names| => Down(names[i], None))
  }

  /** Keys come up in reverse order. */
  function Ups(names: seq<string>): seq<Input> {
    seq(|names|, i requires 0 <= i < |names| => Up(names[|names| - 1 - i]))
  }

  function KeyTrace(def: KeyDef): seq<Input> {
    [Down(def.key, def.text), Up(def.key)]
  }

  function ComboTrace(mods: seq<Modifier>, def: KeyDef): seq<Input> {
    Downs(Names(mods)) + KeyTrace(def) + Ups(Names(mods))
  }

  /** The commands of a combination: each modifier down under its own name, the key, and the modifiers up in reverse. */
  lemma CombinationCommands(mods: seq<Modifier>, def: KeyDef, i: nat)
    requires i < |mods|
    ensures var trace, n := ComboTrace(mods, def), |mods|;
            && |trace| == 2 * n + 2
            && trace[n] == Down(def.key, def.text) && trace[n + 1] == Up(def.key)
            && var name := match mods[i]
                           case Control => "Control" case Shift => "Shift" case Alt => "Alt" case Meta => "Meta";
               trace[i] == Down(name, None) && trace[2 * n + 1 - i] == Up(name)
  {
    var names := Names(mods);
    assert ComboTrace(mods, def)[2 * |mods| + 1 - i] == Ups(names)[|mods| - 1 - i];
  }

  /** The guards with those of the first `i` names added. */
  function Pending(rest: multiset<string>, names: seq<string>, i: nat): multiset<string>
    requires i <= |names|
  {
    if i == 0 then rest else Pending(rest, names, i - 1) + multiset{names[i - 1]}
  }

  lemma {:induction false} PendingIs(rest: multiset<string>, names: seq<string>, i: nat)
    requires i <= |names|
    ensures Pending(rest, names, i) == rest + multiset(names[..i])
    decreases i
  {
    if i > 0 {
      PendingIs(rest, names, i - 1);
      assert names[..i] == names[..i - 1] + [names[i - 1]];
    }
  }

  lemma PendingAll(rest: multiset<string>, names: seq<string>)
    ensures Pending(rest, names, |names|) == rest + multiset(names)
  {
    PendingIs(rest, names, |names|);
    assert names[..|names|] == names;
  }

  lemma PendingStart(guards: multiset<string>, names: seq<string>)
    requires multiset(names) <= guards
    ensures Pending(guards - multiset(names), names, |names|) == guards
  {
    PendingAll(guards - multiset(names), names);
  }

  lemma PendingDrop(rest: multiset<string>, names: seq<string>, i: nat)
    requires i < |names|
    ensures names[i] in Pending(rest, names, i + 1)
    ensures Pending(rest, names, i + 1) - multiset{names[i]} == Pending(rest, names, i)
  {
  }

  /** The first loop of `send_keys`: each modifier down, each with its guard. */
  method PressAll(page: Page, names: seq<string>) returns (ok: bool)
    requires page.SafePage()
    modifies page
    ensures page.SafePage()
    ensures Followed(old(page.log), page.log, Downs(names), ok)
    ensures ok ==> page.guards == old(page.guards) + multiset(names)
  {
    ghost var plan := Downs(names);
    for i := 0 to |names|
      invariant page.SafePage()
      invariant page.log == old(page.log) + AllSent(plan[..i])
      invariant page.guards == Pending(old(page.guards), names, i)
    {
      assert plan[i] == Down(names[i], None);
      ok := page.Press(names[i]);
      AllSentNext(old(page.log), plan, i);
      if !ok {
        FollowedFails(old(page.log), plan, i);
        return;
      }
    }
    FollowedTaken(old(page.log), plan, |names|);
    PendingAll(old(page.guards), names);
    ok := true;
  }

  /** The last loop of `send_keys`: modifiers up in reverse, each guard dropped once its release succeeded. */
  method ReleaseAll(page: Page, names: seq<string>) returns (ok: bool)
    requires page.SafePage() && multiset(names) <= page.guards
    modifies page
    ensures page.SafePage()
    ensures Followed(old(page.log), page.log, Ups(names), ok)
    ensures ok ==> page.guards == old(page.guards) - multiset(names)
  {
    ghost var plan, rest, sent := Ups(names), page.guards - multiset(names), 0;
    PendingStart(page.guards, names);
    for i := |names| downto 0
      invariant page.SafePage()
      invariant sent == |names| - i
      invariant page.log == old(page.log) + AllSent(plan[..sent])
      invariant page.guards == Pending(rest, names, i)
    {
      ok := LetGoOf(page, names, i, rest);
      AllSentNext(old(page.log), plan, sent);
      if !ok {
        FollowedFails(old(page.log), plan, sent);
        return;
      }
      sent := sent + 1;
    }
    FollowedTaken(old(page.log), plan, |names|);
    ok := true;
  }

  method LetGoOf(page: Page, names: seq<string>, i: nat, ghost rest: multiset<string>) returns (ok: bool)
    requires page.SafePage() && i < |names| && page.guards == Pending(rest, names, i + 1)
    modifies page
    ensures page.SafePage() && page.log == old(page.log) + [Sent(Ups(names)[|names| - 1 - i], ok)]
    ensures ok ==> page.guards == Pending(rest, names, i)
  {
    PendingDrop(rest, names, i);
    ok := page.LetGo(names[i]);
  }

  /**
   * `send_keys`. Whatever command fails, no key is left down without a pending release; on success exactly the
   * planned commands were sent and no guard is left over.
   */
  method SendKeys(page: Page, mods: seq<Modifier>, name: string, lower: string -> string) returns (ok: bool)
    requires page.SafePage()
    modifies page
    ensures page.SafePage()
    ensures Lookup(lower, name).None? ==> !ok && page.log == old(page.log) && page.guards == old(page.guards)
    ensures Lookup(lower, name).Some? ==>
              Followed(old(page.log), page.log, ComboTrace(mods, Lookup(lower, name).value), ok)
    ensures ok ==> page.guards == old(page.guards)
  {
    var def := Lookup(lower, name);
    if def.None? {
      return false;
    }
    var names := Names(mods);
    ghost var down, key, up := Downs(names), KeyTrace(def.value), Ups(names);
    ok := PressAll(page, names);
    if !ok {
      FollowedStops(old(page.log), page.log, down, key);
      FollowedStops(old(page.log), page.log, down + key, up);
      return;
    }
    ghost var pressed := page.log;
    ok := page.KeyDownThenRelease(def.value.key, def.value.text);
    FollowedThen(old(page.log), pressed, page.log, down, key, ok);
    if !ok {
      FollowedStops(old(page.log), page.log, down + key, up);
      return;
    }
    ghost var typed := page.log;
    ok := ReleaseAll(page, names);
    FollowedThen(old(page.log), typed, page.log, down + key, up, ok);
  }

  // ---------- brackets ----------

  /** Downs push and ups pop the same key; None if they do not nest. */
  function Nested(trace: seq<Input>, open: seq<string>): Option<seq<string>> {
    if trace == [] then Some(open)
    else match trace[0]
      case Down(key, _) => Nested(trace[1..], open + [key])
      case Up(key) =>
        if open != [] && open[|open| - 1] == key then Nested(trace[1..], open[..|open| - 1]) else None
      case CharInput(_) => Nested(trace[1..], open)
  }

  lemma {:induction false} NestedConcat(a: seq<Input>, b: seq<Input>, open: seq<string>)
    ensures Nested(a + b, open) == match Nested(a, open) case None => None case Some(mid) => Nested(b, mid)
    decreases |a|
  {
    if a == [] {
      assert a + b == b;
    } else {
      assert (a + b)[1..] == a[1..] + b;
      match a[0]
      case Down(key, _) => NestedConcat(a[1..], b, open + [key]);
      case Up(key) =>
        if open != [] && open[|open| - 1] == key {
          NestedConcat(a[1..], b, open[..|open| - 1]);
        }
      case CharInput(_) => NestedConcat(a[1..], b, open);
    }
  }

  lemma KeyNests(def: KeyDef, open: seq<string>)
    ensures Nested(KeyTrace(def), open) == Some(open)
  {
    var trace := KeyTrace(def);
    assert trace[1..] == [Up(def.key)] && [Up(def.key)][1..] == [];
    assert (open + [def.key])[..|open|] == open;
    assert Nested([Up(def.key)], open + [def.key]) == Some(open);
  }

  lemma {:induction false} BracketsNest(names: seq<string>, inner: seq<Input>, open: seq<string>)
    requires forall o :: Nested(inner, o) == Some(o)
    ensures Nested(Downs(names) + inner + Ups(names), open) == Some(open)
    decreases |names|
  {
    if names == [] {
      assert Downs(names) + inner + Ups(names) == inner;
    } else {
      var front, name := names[..|names| - 1], names[|names| - 1];
      var wrapped := [Down(name, None)] + inner + [Up(name)];
      forall o
        ensures Nested(wrapped, o) == Some(o)
      {
        assert wrapped[1..] == inner + [Up(name)];
        NestedConcat(inner, [Up(name)], o + [name]);
        assert (o + [name])[..|o|] == o;
      }
      BracketsNest(front, wrapped, open);
      assert Downs(names) + inner + Ups(names) == Downs(front) + wrapped + Ups(front);
    }
  }

  /** The commands of a key combination nest like brackets and leave nothing open. */
  lemma CombinationNests(mods: seq<Modifier>, def: KeyDef)
    ensures Nested(ComboTrace(mods, def), []) == Some([])
  {
    forall o
      ensures Nested(KeyTrace(def), o) == Some(o)
    {
      KeyNests(def, o);
    }
    BracketsNest(Names(mods), KeyTrace(def), []);
  }

  // ---------- typing text ----------

  const CR: char := '\r'
  const LF: char := '\n'

  predicate UpperAscii(c: char) {
    'A' <= c <= 'Z'
  }

  predicate LineBreak(c: char) {
    c == CR || c == LF
  }

  /** A carriage return and line feed together are one key press. */
  function UnitLength(text: string): (n: nat)
    requires text != ""
    ensures 1 <= n <= |text|
  {
    if |text| > 1 && text[0] == CR && text[1] == LF then 2 else 1
  }

  function UpperTrace(c: char): seq<Input> {
    [Down(SHIFT_KEY, None)] + KeyTrace(KeyDef([c], Some([c]))) + [Up(SHIFT_KEY)]
  }

  function CharTrace(lower: string -> string, c: char): seq<Input> {
    if LineBreak(c) then KeyTrace(ENTER)
    else if UpperAscii(c) then UpperTrace(c)
    else match Lookup(lower, [c])
      case Some(def) => KeyTrace(def)
      case None => [CharInput([c])]
  }

  /** The commands that type a text. */
  function TextTrace(lower: string -> string, text: string): seq<Input>
    decreases |text|
  {
    if text == "" then [] else CharTrace(lower, text[0]) + TextTrace(lower, text[UnitLength(text)..])
  }

  /** `type_uppercase_ascii`: the letter with shift held down around it. */
  method TypeUppercase(page: Page, c: char) returns (ok: bool)
    requires page.SafePage()
    modifies page
    ensures page.SafePage()
    ensures Followed(old(page.log), page.log, UpperTrace(c), ok)
    ensures ok ==> page.guards == old(page.guards)
  {
    ghost var shift, key, unshift := [Down(SHIFT_KEY, None)], KeyTrace(KeyDef([c], Some([c]))), [Up(SHIFT_KEY)];
    ok := page.Press(SHIFT_KEY);
    FollowedOne(old(page.log), Down(SHIFT_KEY, None), ok);
    if !ok {
      FollowedStops(old(page.log), page.log, shift, key);
      FollowedStops(old(page.log), page.log, shift + key, unshift);
      return;
    }
    ghost var shifted := page.log;
    ok := page.KeyDownThenRelease([c], Some([c]));
    FollowedThen(old(page.log), shifted, page.log, shift, key, ok);
    if !ok {
      FollowedStops(old(page.log), page.log, shift + key, unshift);
      return;
    }
    ghost var typed := page.log;
    ok := page.LetGo(SHIFT_KEY);
    FollowedOne(typed, Up(SHIFT_KEY), ok);
    FollowedThen(old(page.log), typed, page.log, shift + key, unshift, ok);
  }

  /** One character of the text; the table holds the Enter key and every letter, so those lookups never fail. */
  method TypeChar(page: Page, lower: string -> string, c: char) returns (ok: bool)
    requires page.SafePage()
    modifies page
    ensures page.SafePage()
    ensures Followed(old(page.log), page.log, CharTrace(lower, c), ok)
    ensures ok ==> page.guards == old(page.guards)
  {
    if LineBreak(c) {
      ok := page.KeyDownThenRelease(ENTER.key, ENTER.text);
    } else if UpperAscii(c) {
      ok := TypeUppercase(page, c);
    } else {
      match Lookup(lower, [c])
      case Some(def) =>
        ok := page.KeyDownThenRelease(def.key, def.text);
      case None =>
        ok := page.Execute(CharInput([c]));
    }
  }

  /** Every command before the text's position `k` succeeded, and nothing after it was sent. */
  ghost predicate StoppedAt(before: seq<Sent>, after: seq<Sent>, lower: string -> string, text: string, k: nat) {
    && k <= |text|
    && exists sent :: TextTrace(lower, text) == sent + TextTrace(lower, text[k..]) && after == before + AllSent(sent)
  }

  lemma NextUnit(lower: string -> string, text: string, i: nat, sent: seq<Input>)
    requires i < |text|
    ensures var next := i + UnitLength(text[i..]);
            sent + TextTrace(lower, text[i..]) == sent + CharTrace(lower, text[i]) + TextTrace(lower, text[next..])
  {
    var next := i + UnitLength(text[i..]);
    var unit, rest := CharTrace(lower, text[i]), TextTrace(lower, text[next..]);
    assert text[i..][0] == text[i] && text[i..][next - i..] == text[next..];
    assert TextTrace(lower, text[i..]) == unit + rest;
    assert sent + (unit + rest) == sent + unit + rest;
  }

  lemma SendUnit(
    a: seq<Sent>, b: seq<Sent>, c: seq<Sent>, sent: seq<Input>, unit: seq<Input>, rest: seq<Input>, ok: bool)
    requires b == a + AllSent(sent) && Followed(b, c, unit, ok)
    ensures ok ==> c == a + AllSent(sent + unit)
    ensures !ok ==> Followed(a, c, sent + unit + rest, false)
  {
    FollowedAll(a, sent);
    FollowedThen(a, b, c, sent, unit, ok);
    if ok {
      FollowedAll(a, sent + unit);
    } else {
      FollowedStops(a, c, sent + unit, rest);
    }
  }

  /**
   * `type_text_with_pre_dispatch_guard`: the text's commands are sent in order up to the first failure, or up to a
   * whole character before which the caller's guard failed.
   */
  method TypeText(page: Page, lower: string -> string, text: string) returns (ok: bool)
    requires page.SafePage()
    modifies page
    ensures page.SafePage()
    ensures ok ==> Followed(old(page.log), page.log, TextTrace(lower, text), true) && page.guards == old(page.guards)
    ensures !ok ==>
              || Followed(old(page.log), page.log, TextTrace(lower, text), false)
              || exists k: nat :: k < |text| && StoppedAt(old(page.log), page.log, lower, text, k)
  {
    ghost var plan, sent := TextTrace(lower, text), [];
    var i := 0;
    while i < |text|
      invariant i <= |text| && page.SafePage() && page.guards == old(page.guards)
      invariant plan == sent + TextTrace(lower, text[i..])
      invariant page.log == old(page.log) + AllSent(sent)
    {
      var guarded := *;
      if !guarded {
        assert StoppedAt(old(page.log), page.log, lower, text, i);
        return false;
      }
      ghost var before, unit := page.log, CharTrace(lower, text[i]);
      var next := i + UnitLength(text[i..]);
      NextUnit(lower, text, i, sent);
      ok := TypeChar(page, lower, text[i]);
      SendUnit(old(page.log), before, page.log, sent, unit, TextTrace(lower, text[next..]), ok);
      if !ok {
        return;
      }
      sent := sent + unit;
      i := next;
    }
    assert sent + [] == sent;
    FollowedAll(old(page.log), plan);
    ok := true;
  }

  lemma {:induction false} TextNests(lower: string -> string, text: string)
    ensures Nested(TextTrace(lower, text), []) == Some([])
    decreases |text|
  {
    if text != "" {
      var c, rest := text[0], text[UnitLength(text)..];
      CharNests(lower, c);
      TextNests(lower, rest);
      NestedConcat(CharTrace(lower, c), TextTrace(lower, rest), []);
    }
  }

  lemma CharNests(lower: string -> string, c: char)
    ensures Nested(CharTrace(lower, c), []) == Some([])
  {
    if LineBreak(c) {
      KeyNests(ENTER, []);
    } else if UpperAscii(c) {
      forall o
        ensures Nested(KeyTrace(KeyDef([c], Some([c]))), o) == Some(o)
      {
        KeyNests(KeyDef([c], Some([c])), o);
      }
      BracketsNest([SHIFT_KEY], KeyTrace(KeyDef([c], Some([c]))), []);
      assert Downs([SHIFT_KEY]) == [Down(SHIFT_KEY, None)] && Ups([SHIFT_KEY]) == [Up(SHIFT_KEY)];
    } else {
      match Lookup(lower, [c])
      case Some(def) => KeyNests(def, []);
      case None => assert [CharInput([c])][1..] == [];
    }
  }

  // ---------- what typing inserts ----------

  /** The text a run of successful commands inserts. */
  function Inserted(trace: seq<Input>): string {
    if trace == [] then ""
    else
      (match trace[0]
       case Down(_, Some(text)) => text
       case CharInput(chars) => chars
       case _ => "") + Inserted(trace[1..])
  }

  /** The text with every line break as one carriage return: a line feed after a carriage return is dropped. */
  function Normalised(text: string): string {
    if text == "" then ""
    else
      var front, last := text[..|text| - 1], text[|text| - 1];
      if last != '\n' then Normalised(front) + [last]
      else if front != "" && front[|front| - 1] == '\r' then Normalised(front)
      else Normalised(front) + "\r"
  }

  /** The same, unit by unit from the front. */
  function ByUnits(text: string): string
    decreases |text|
  {
    if text == "" then ""
    else [if LineBreak(text[0]) then CR else text[0]] + ByUnits(text[UnitLength(text)..])
  }

  lemma {:induction false} NormalisedConcat(a: string, b: string)
    requires a != "" && b != "" && !(a[|a| - 1] == '\r' && b[0] == '\n')
    ensures Normalised(a + b) == Normalised(a) + Normalised(b)
    decreases |b|
  {
    var n := |b| - 1;
    assert (a + b)[..|a + b| - 1] == a + b[..n] && (a + b)[|a + b| - 1] == b[n];
    if n > 0 {
      assert (a + b[..n])[|a + b[..n]| - 1] == b[n - 1];
      NormalisedConcat(a, b[..n]);
    } else {
      assert a + b[..n] == a && b[..n] == "";
    }
  }

  lemma NormalisedUnit(unit: string)
    requires |unit| == 1 || unit == "\r\n"
    ensures Normalised(unit) == [if unit[0] == '\r' || unit[0] == '\n' then '\r' else unit[0]]
  {
    assert unit[..0] == "";
    if |unit| == 2 {
      assert unit[..1] == "\r" && "\r"[..0] == "";
    }
  }

  lemma {:induction false} NormalisedByUnits(text: string)
    ensures ByUnits(text) == Normalised(text)
    decreases |text|
  {
    if text != "" {
      var n := UnitLength(text);
      var unit, rest := text[..n], text[n..];
      assert text == unit + rest;
      NormalisedByUnits(rest);
      NormalisedUnit(unit);
      if rest != "" {
        NormalisedConcat(unit, rest);
      } else {
        assert unit + rest == unit;
      }
    }
  }

  lemma {:induction false} InsertedConcat(a: seq<Input>, b: seq<Input>)
    ensures Inserted(a + b) == Inserted(a) + Inserted(b)
    decreases |a|
  {
    if a == [] {
      assert a + b == b;
    } else {
      assert (a + b)[1..] == a[1..] + b;
      InsertedConcat(a[1..], b);
    }
  }

  lemma KeyInserts(def: KeyDef)
    ensures Inserted(KeyTrace(def)) == if def.text.Some? then def.text.value else ""
  {
    var trace := KeyTrace(def);
    assert trace[1..] == [Up(def.key)] && [Up(def.key)][1..] == [];
    assert Inserted([Up(def.key)]) == "";
  }

  predicate Typeable(def: KeyDef) {
    def.text.Some? ==> |def.text.value| == 1 && def.text.value[0] as int < 128
  }

  lemma {:induction false} FindKeyMember(table: seq<KeyDef>, lower: string -> string, name: string)
    ensures FindKey(table, lower, name).Some? ==> FindKey(table, lower, name).value in table
  {
    if table != [] && lower(table[0].key) != lower(name) {
      FindKeyMember(table[1..], lower, name);
    }
  }

  lemma {:induction false} FindKeyConcat(a: seq<KeyDef>, b: seq<KeyDef>, lower: string -> string, name: string)
    ensures FindKey(a + b, lower, name) ==
            if FindKey(a, lower, name).Some? then FindKey(a, lower, name) else FindKey(b, lower, name)
    decreases |a|
  {
    if a == [] {
      assert a + b == b;
    } else {
      assert (a + b)[1..] == a[1..] + b;
      FindKeyConcat(a[1..], b, lower, name);
    }
  }

  /** Every key of the table types at most one ASCII character. */
  lemma TableTypeable(def: KeyDef)
    requires def in TABLE
    ensures Typeable(def)
  {
    assert Typeable(ENTER);
    if def in Typing(TYPING_KEYS) {
      var i :| 0 <= i < |TYPING_KEYS| && Typing(TYPING_KEYS)[i] == def;
      TypingAscii(TYPING_KEYS[i]);
    }
  }

  lemma TypingAscii(c: char)
    requires c in TYPING_KEYS
    ensures c as int < 128 && LowerChar(c) == c
  {
  }

  lemma EditingNames(name: string)
    requires name in EDITING_KEYS
    ensures Ascii(name) && |name| > 1
  {
  }

  lemma FunctionNames(name: string)
    requires name in FUNCTION_KEYS
    ensures Ascii(name) && |name| > 1
  {
  }

  lemma SilentNames(name: string)
    requires name in SILENT_KEYS
    ensures Ascii(name) && |name| > 1
  {
    if name in EDITING_KEYS {
      EditingNames(name);
    } else {
      FunctionNames(name);
    }
  }

  lemma {:induction false} SilentMiss(names: seq<string>, lower: string -> string, c: char)
    requires forall name :: name in names ==> lower(name) != lower([c])
    ensures FindKey(Silent(names), lower, [c]).None?
  {
    if names != [] {
      assert Silent(names)[1..] == Silent(names[1..]);
      SilentMiss(names[1..], lower, c);
    }
  }

  lemma {:induction false} TypingHit(chars: string, lower: string -> string, c: char)
    requires forall d :: d in chars ==> lower([d]) == [d]
    requires lower([c]) == [c]
    ensures FindKey(Typing(chars), lower, [c]) == if c in chars then Some(KeyDef([c], Some([c]))) else None
  {
    if chars != "" {
      assert Typing(chars)[1..] == Typing(chars[1..]);
      assert lower([chars[0]]) == [chars[0]];
      TypingHit(chars[1..], lower, c);
      assert c in chars <==> c == chars[0] || c in chars[1..];
    }
  }

  lemma SilentKeysMiss(lower: string -> string, c: char)
    requires LowersAscii(lower) && |lower([c])| == 1
    ensures FindKey(Silent(SILENT_KEYS), lower, [c]).None?
  {
    forall name | name in SILENT_KEYS
      ensures lower(name) != lower([c])
    {
      SilentNames(name);
      assert |lower(name)| == |name|;
    }
    SilentMiss(SILENT_KEYS, lower, c);
  }

  lemma TypingKeysHit(lower: string -> string, c: char)
    requires LowersAscii(lower) && lower([c]) == [c]
    ensures FindKey(Typing(TYPING_KEYS), lower, [c]) == if c in TYPING_KEYS then Some(KeyDef([c], Some([c]))) else None
  {
    forall d | d in TYPING_KEYS
      ensures lower([d]) == [d]
    {
      TypingAscii(d);
      assert Ascii([d]);
    }
    TypingHit(TYPING_KEYS, lower, c);
  }

  lemma LookupEnter(lower: string -> string)
    ensures Lookup(lower, ENTER.key) == Some(ENTER)
  {
    FindKeyConcat([ENTER] + Silent(SILENT_KEYS), Typing(TYPING_KEYS), lower, ENTER.key);
    FindKeyConcat([ENTER], Silent(SILENT_KEYS), lower, ENTER.key);
  }

  lemma OneMiss(def: KeyDef, lower: string -> string, name: string)
    requires LowersAscii(lower) && Ascii(def.key) && |def.key| != |lower(name)|
    ensures FindKey([def], lower, name).None?
  {
    assert |lower(def.key)| == |def.key|;
    assert [def][1..] == [];
  }

  lemma EnterName()
    ensures Ascii(ENTER.key) && |ENTER.key| > 1
  {
  }

  lemma EnterMisses(lower: string -> string, c: char)
    requires LowersAscii(lower) && |lower([c])| == 1
    ensures FindKey([ENTER], lower, [c]).None?
  {
    EnterName();
    OneMiss(ENTER, lower, [c]);
  }

  lemma LetterKeys(c: char)
    ensures 'a' <= c <= 'z' ==> c in TYPING_KEYS
  {
  }

  lemma TypingKeysAre(c: char)
    ensures c in TYPING_KEYS <==> c == ' ' || 'a' <= c <= 'z' || '0' <= c <= '9'
  {
    LetterKeys(c);
  }

  lemma {:induction false} PresentIsFound(table: seq<KeyDef>, lower: string -> string, name: string, i: nat)
    requires i < |table| && table[i].key == name
    ensures FindKey(table, lower, name).Some? && lower(FindKey(table, lower, name).value.key) == lower(name)
  {
    if i > 0 && lower(table[0].key) != lower(name) {
      PresentIsFound(table[1..], lower, name, i - 1);
    }
  }

  /** The editing and function keys are found under their names. */
  lemma LookupNamed(lower: string -> string, name: string)
    requires || name in ["Tab", "Escape", "Backspace", "Delete", "ArrowUp", "ArrowDown", "ArrowLeft", "ArrowRight"]
             || name in ["Home", "End", "PageUp", "PageDown", "Insert", "F1", "F2", "F3", "F4", "F5", "F6"]
             || name in ["F7", "F8", "F9", "F10", "F11", "F12"]
    ensures Lookup(lower, name).Some? && lower(Lookup(lower, name).value.key) == lower(name)
  {
    assert name in SILENT_KEYS;
    var i :| 0 <= i < |SILENT_KEYS| && SILENT_KEYS[i] == name;
    assert TABLE[i + 1] == KeyDef(name, None);
    PresentIsFound(TABLE, lower, name, i + 1);
  }

  /** Small letters, digits and the space are found as themselves, and no other ASCII character is. */
  lemma LookupAscii(lower: string -> string, c: char)
    requires LowersAscii(lower) && c as int < 128 && !('A' <= c <= 'Z')
    ensures Lookup(lower, [c])
         == if c == ' ' || 'a' <= c <= 'z' || '0' <= c <= '9' then Some(KeyDef([c], Some([c]))) else None
  {
    TypingKeysAre(c);
    assert Ascii([c]) && lower([c]) == [c];
    var front := [ENTER] + Silent(SILENT_KEYS);
    EnterMisses(lower, c);
    SilentKeysMiss(lower, c);
    FindKeyConcat([ENTER], Silent(SILENT_KEYS), lower, [c]);
    TypingKeysHit(lower, c);
    FindKeyConcat(front, Typing(TYPING_KEYS), lower, [c]);
  }

  /** A character outside ASCII that lower-cases to the name of a key. */
  predicate Confused(lower: string -> string, c: char) {
    c as int >= 128 && Lookup(lower, [c]).Some?
  }

  lemma CharInserts(lower: string -> string, c: char)
    requires LowersAscii(lower)
    ensures |Inserted(CharTrace(lower, c))| <= 1
    ensures Inserted(CharTrace(lower, c)) == [if LineBreak(c) then CR else c] <==> !Confused(lower, c)
  {
    if LineBreak(c) {
      KeyInserts(ENTER);
    } else if UpperAscii(c) {
      UpperInserts(c);
    } else {
      if c as int < 128 {
        LookupAscii(lower, c);
      }
      match Lookup(lower, [c])
      case Some(def) =>
        FindKeyMember(TABLE, lower, [c]);
        TableTypeable(def);
        KeyInserts(def);
      case None =>
        assert [CharInput([c])][1..] == [] && Inserted([]) == "";
    }
  }

  lemma UpperInserts(c: char)
    ensures Inserted(UpperTrace(c)) == [c]
  {
    var key := KeyTrace(KeyDef([c], Some([c])));
    KeyInserts(KeyDef([c], Some([c])));
    InsertedConcat([Down(SHIFT_KEY, None)] + key, [Up(SHIFT_KEY)]);
    InsertedConcat([Down(SHIFT_KEY, None)], key);
    assert [Down(SHIFT_KEY, None)][1..] == [] && [Up(SHIFT_KEY)][1..] == [] && Inserted([]) == "";
  }

  /** Typing inserts the text, line breaks as carriage returns, exactly when none of it is confused with a key. */
  lemma {:induction false} TypingInserts(lower: string -> string, text: string)
    requires LowersAscii(lower)
    ensures |Inserted(TextTrace(lower, text))| <= |Normalised(text)|
    ensures Inserted(TextTrace(lower, text)) == Normalised(text) <==> forall c :: c in text ==> !Confused(lower, c)
    decreases |text|
  {
    if text != "" {
      var c, rest := text[0], text[UnitLength(text)..];
      var first, others := Inserted(CharTrace(lower, c)), Inserted(TextTrace(lower, rest));
      var unit := [if LineBreak(c) then CR else c];
      CharInserts(lower, c);
      TypingInserts(lower, rest);
      InsertedConcat(CharTrace(lower, c), TextTrace(lower, rest));
      SameParts(first, others, unit, Normalised(rest));
      NormalisedByUnits(text);
      NormalisedByUnits(rest);
      UnitChars(text);
    }
  }

  lemma SameParts(a: string, b: string, c: string, d: string)
    requires |a| <= |c| && |b| <= |d|
    ensures a + b == c + d <==> a == c && b == d
  {
    if a + b == c + d {
      assert |a + b| == |c + d|;
      assert a == (a + b)[..|a|] && b == (a + b)[|a|..];
      assert c == (c + d)[..|c|] && d == (c + d)[|c|..];
    }
  }

  lemma UnitChars(text: string)
    requires text != ""
    ensures forall c :: c in text <==>
              c == text[0] || c in text[UnitLength(text)..] || (UnitLength(text) == 2 && c == LF)
  {
    assert text == [text[0]] + text[1..];
    assert UnitLength(text) == 2 ==> text[1..] == [LF] + text[2..];
  }

  /** A confused character is typed as the key it lower-cases to. */
  lemma ConfusedTypesKey(lower: string -> string, c: char, key: char)
    requires LowersAscii(lower) && c as int >= 128 && key in TYPING_KEYS && lower([c]) == [key]
    ensures Inserted(TextTrace(lower, [c])) == [key]
  {
    ConfusedLookup(lower, c, key);
    OneCharTrace(lower, c);
    KeyInserts(KeyDef([key], Some([key])));
  }

  lemma TypingKeyIsFound(lower: string -> string, key: char)
    requires LowersAscii(lower) && key in TYPING_KEYS
    ensures Lookup(lower, [key]) == Some(KeyDef([key], Some([key]))) && lower([key]) == [key]
  {
    TypingKeysAre(key);
    assert Ascii([key]);
    LookupAscii(lower, key);
  }

  lemma ConfusedLookup(lower: string -> string, c: char, key: char)
    requires LowersAscii(lower) && key in TYPING_KEYS && lower([c]) == [key]
    ensures Lookup(lower, [c]) == Some(KeyDef([key], Some([key])))
  {
    TypingKeyIsFound(lower, key);
    LowerDecides(TABLE, lower, [c], [key]);
  }

  lemma OneCharTrace(lower: string -> string, c: char)
    ensures TextTrace(lower, [c]) == CharTrace(lower, c)
  {
    assert [c][UnitLength([c])..] == [];
    assert CharTrace(lower, c) + [] == CharTrace(lower, c);
  }

  /** So the Kelvin sign, which lower-cases to the letter k, comes out as that letter. */
  lemma KelvinSignTypesLetter(lower: string -> string)
    requires LowersAscii(lower) && lower(['\U{212A}']) == ['k']
    ensures Inserted(TextTrace(lower, ['\U{212A}'])) == ['k']
  {
    assert TYPING_KEYS[11] == 'k';
    ConfusedTypesKey(lower, '\U{212A}', 'k');
  }

  lemma {:induction false} LowerDecides(table: seq<KeyDef>, lower: string -> string, a: string, b: string)
    requires lower(a) == lower(b)
    ensures FindKey(table, lower, a) == FindKey(table, lower, b)
  {
    if table != [] {
      LowerDecides(table[1..], lower, a, b);
    }
  }
}
