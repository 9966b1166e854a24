/**
  The scenarios of the interpolation sample (sample.dollar.cc), proved on
  the specification of `translate` and replayed on a `SymbolTable`.
  Reference names are passed as parameters that are pinned to their
  spelling by a precondition, which keeps the proofs symbolic.
*/
module SymbolsExamples {
  import opened Wrappers
  import opened Symbols

  /** Two defined references separated by text: both are replaced. */
  lemma {:induction false} TwoDefined(m: Table, r1: string, r2: string, parent: string, fuel: nat)
    requires r1 == "$PLAYER_1" && r2 == "$PLAYER_2" && parent != r1 && parent != r2 && 1 <= fuel
    requires r1 in m && m[r1] == "Mark"
    requires r2 in m && m[r2] == "John"
    ensures Translation(m, r1 + " and " + r2, parent, fuel) == Some("Mark and John")
  {
    LiteralThen(m, "and ", r2, parent, fuel);
    RefAlone(m, r2, parent, fuel);
    NoDollarUnchanged(m, "John", r2, fuel - 1);
    assert "and " + "John" == "and John";
    RefThen(m, r1, ' ', "and " + r2, parent, fuel);
    NoDollarUnchanged(m, "Mark", r1, fuel - 1);
    assert "Mark" + ([' '] + "and John") == "Mark and John";
    assert r1 + [' '] + ("and " + r2) == r1 + " and " + r2;
  }

  /** An undefined reference is quoted: it stays in the output verbatim. */
  lemma {:induction false} UndefinedQuoted(m: Table, r3: string, rest: string, fuel: nat)
    requires r3 == "$PLAYER_3" && r3 !in m && rest == "joined the game"
    ensures Translation(m, r3 + " " + rest, "", fuel) == Some(r3 + " " + rest)
  {
    RefThen(m, r3, ' ', rest, "", fuel);
    assert Resolve(m, r3, "", fuel) == Some(r3);
    NoDollarUnchanged(m, rest, "", fuel);
    assert r3 + [' '] + rest == r3 + " " + rest;
    assert r3 + ([' '] + rest) == r3 + " " + rest;
  }

  /** The value of `$GREETING`, expanded inside `$GREETING`. */
  lemma {:induction false} GreetingExpands(m: Table, hey: string, greeting: string, hello: string, tail: string)
    requires hey == "$HEY" && greeting == "$GREETING" && hello == "Hello stranger" && tail == " How are you?"
    requires hey in m && m[hey] == hello
    ensures Translation(m, hey + "!" + tail, greeting, 1) == Some(hello + "!" + tail)
  {
    RefThen(m, hey, '!', tail, greeting, 1);
    NoDollarUnchanged(m, hello, hey, 0);
    NoDollarUnchanged(m, tail, greeting, 1);
    assert hey + "!" + tail == hey + ['!'] + tail;
    assert hello + ("!" + tail) == hello + "!" + tail;
  }

  /** A value that mentions another symbol is expanded recursively. */
  lemma {:induction false} Chained(m: Table, hey: string, greeting: string, hello: string, tail: string)
    requires hey == "$HEY" && greeting == "$GREETING" && hello == "Hello stranger" && tail == " How are you?"
    requires hey in m && m[hey] == hello
    requires greeting in m && m[greeting] == hey + "!" + tail
    ensures Translation(m, greeting, "", 2) == Some(hello + "!" + tail)
  {
    RefAlone(m, greeting, "", 2);
    GreetingExpands(m, hey, greeting, hello, tail);
  }

  /** A value that mentions its own symbol keeps that mention verbatim. */
  lemma {:induction false} Loopback(m: Table, lb: string, tail: string)
    requires lb == "$LOOPBACK" && tail == "is quoted."
    requires lb in m && m[lb] == lb + " " + tail
    ensures Translation(m, lb, "", 1) == Some(lb + " " + tail)
  {
    RefAlone(m, lb, "", 1);
    RefThen(m, lb, ' ', tail, lb, 0);
    assert Resolve(m, lb, lb, 0) == Some(lb);
    NoDollarUnchanged(m, tail, lb, 0);
    assert lb + " " + tail == lb + [' '] + tail;
    assert lb + ([' '] + tail) == lb + " " + tail;
  }

  /** The reassigned `$HEY` names both players and expands to their values. */
  lemma {:induction false} HeyNamesPlayers(m: Table, hey: string, p1: string, p2: string)
    requires hey == "$HEY" && p1 == "$PLAYER_1" && p2 == "$PLAYER_2"
    requires p1 in m && m[p1] == "Mark" && p2 in m && m[p2] == "John"
    ensures Translation(m, "Hey " + p1 + " and " + p2, hey, 1) == Some("Hey Mark and John")
  {
    LiteralThen(m, "Hey ", p1 + " and " + p2, hey, 1);
    TwoDefined(m, p1, p2, hey, 1);
    assert "Hey " + p1 + " and " + p2 == "Hey " + (p1 + " and " + p2);
    assert "Hey " + "Mark and John" == "Hey Mark and John";
  }

  /**
    Hot swapping: after `$HEY` is reassigned, the unchanged `$GREETING`
    picks up the new value, itself expanded one level further down.
  */
  lemma {:induction false} HotSwapped(m: Table, hey: string, greeting: string, p1: string, p2: string, tail: string)
    requires hey == "$HEY" && greeting == "$GREETING" && tail == " How are you?"
    requires p1 == "$PLAYER_1" && p2 == "$PLAYER_2"
    requires p1 in m && m[p1] == "Mark" && p2 in m && m[p2] == "John"
    requires hey in m && m[hey] == "Hey " + p1 + " and " + p2
    requires greeting in m && m[greeting] == hey + "!" + tail
    ensures Translation(m, greeting, "", 3) == Some("Hey Mark and John!" + tail)
  {
    RefAlone(m, greeting, "", 3);
    RefThen(m, hey, '!', tail, greeting, 2);
    NoDollarUnchanged(m, tail, greeting, 2);
    HeyNamesPlayers(m, hey, p1, p2);
    assert Resolve(m, hey, greeting, 2) == Some("Hey Mark and John");
    assert hey + "!" + tail == hey + ['!'] + tail;
    assert "Hey Mark and John" + ("!" + tail) == "Hey Mark and John!" + tail;
  }
}
