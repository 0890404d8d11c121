/** The screens a key goes to, kept as one string (KeyInfo in IKeyState.cpp): names between
    colons, or "*" for all of them.
 */
module Destinations {

  /** What a name may be: C strings without the separator. */
  ghost predicate Clean(name: string) {
    forall k | 0 <= k < |name| :: name[k] != ':' && name[k] != '\0'
  }

  ghost predicate AllClean(names: seq<string>) {
    forall i | 0 <= i < |names| :: Clean(names[i])
  }

  // ---- joining ----

  /** Each name with the colon after it. */
  function Listed(names: seq<string>): string {
    if names == [] then "" else Listed(names[..|names| - 1]) + names[|names| - 1] + ":"
  }

  function Joined(names: seq<string>): string {
    if "*" in names then "*" else if names == [] then "" else ":" + Listed(names)
  }

  lemma OneMore(names: seq<string>, i: nat)
    requires i < |names| && "*" !in names[..i] && names[i] != "*"
    ensures "*" !in names[..i + 1]
    ensures Joined(names[..i + 1])
            == (if Joined(names[..i]) == "" then ":" else Joined(names[..i])) + names[i] + ":"
  {
    var before, now := names[..i], names[..i + 1];
    assert now == before + [names[i]] && now[..|now| - 1] == before;
    JoinedSnoc(before, names[i], now);
  }

  lemma JoinedSnoc(before: seq<string>, name: string, now: seq<string>)
    requires now == before + [name] && "*" !in before && name != "*" && now[..|now| - 1] == before
    ensures "*" !in now
    ensures Joined(now) == (if Joined(before) == "" then ":" else Joined(before)) + name + ":"
  {
    assert ":" + (Listed(before) + name + ":") == (":" + Listed(before)) + name + ":";
  }

  /** The names come in the order of the set, whatever that is. */
  method Join(names: seq<string>) returns (screens: string)
    ensures screens == Joined(names)
  {
    screens := "";
    for i := 0 to |names|
      invariant "*" !in names[..i] && screens == Joined(names[..i])
    {
      if names[i] == "*" {
        screens := "*";
        assert "*" in names;
        return;
      }
      OneMore(names, i);
      if screens == "" {
        screens := ":";
      }
      screens := screens + names[i];
      screens := screens + ":";
    }
    assert names[..|names|] == names;
  }

  // ---- splitting ----

  /** strchr: how far it is to the first colon. */
  function ToColon(s: string): (r: nat)
    requires ':' in s
    ensures r < |s| && s[r] == ':'
  {
    if s[0] == ':' then 0 else 1 + ToColon(s[1..])
  }

  /** The names in a string in which every name ends with a colon. */
  function SplitFrom(s: string): set<string>
    requires s == "" || s[|s| - 1] == ':'
    decreases |s|
  {
    if s == "" then {}
    else
      var j := ToColon(s);
      {s[..j]} + SplitFrom(s[j + 1..])
  }

  /** What split() relies on: without a last colon it would run past the end. */
  predicate Splittable(screens: string) {
    screens == "" || screens[0] == '*' || screens[|screens| - 1] == ':'
  }

  function SplitOf(screens: string): set<string>
    requires Splittable(screens)
  {
    if screens == "" then {} else if screens[0] == '*' then {"*"} else SplitFrom(screens[1..])
  }

  /** The name at a position, and where the next one starts. */
  method NextName(screens: string, i: nat) returns (name: string, next: nat)
    requires i < |screens| && screens[|screens| - 1] == ':'
    ensures i < next <= |screens|
    ensures SplitFrom(screens[i..]) == {name} + SplitFrom(screens[next..])
  {
    ghost var s := screens[i..];
    assert s[|s| - 1] == ':';
    var length := ToColon(screens[i..]);
    name, next := screens[i..i + length], i + length + 1;
    assert s[..length] == name && s[length + 1..] == screens[next..];
  }

  method Split(screens: string) returns (dst: set<string>)
    requires Splittable(screens)
    ensures dst == SplitOf(screens)
  {
    dst := {};
    if screens == "" {
      return;
    }
    if screens[0] == '*' {
      return {"*"};
    }
    var i: nat := 1;
    ghost var whole := SplitFrom(screens[1..]);
    while i < |screens|
      invariant 1 <= i <= |screens| && dst + SplitFrom(screens[i..]) == whole
    {
      var name, next := NextName(screens, i);
      Regroup(dst, name, SplitFrom(screens[next..]));
      dst := dst + {name};
      i := next;
    }
    assert screens[|screens|..] == "";
  }

  lemma Regroup(a: set<string>, x: string, b: set<string>)
    ensures a + ({x} + b) == (a + {x}) + b
  {}

  // ---- searching ----

  /** strstr finds it. */
  ghost predicate Occurs(s: string, match_: string) {
    exists i: nat :: OccursAt(s, match_, i)
  }

  predicate OccursAt(s: string, match_: string, i: nat) {
    i + |match_| <= |s| && s[i..i + |match_|] == match_
  }

  method Strstr(s: string, match_: string) returns (found: bool)
    ensures found <==> Occurs(s, match_)
  {
    var i := 0;
    while i + |match_| <= |s|
      invariant forall k: nat | k < i :: !OccursAt(s, match_, k)
    {
      if s[i..i + |match_|] == match_ {
        assert OccursAt(s, match_, i);
        return true;
      }
      i := i + 1;
    }
    return false;
  }

  method Contains(screens: string, name: string) returns (r: bool)
    ensures r <==> screens != "" && (screens[0] == '*' || Occurs(screens, ":" + name + ":"))
  {
    if screens == "" {
      return false;
    }
    if screens[0] == '*' {
      return true;
    }
    var match_ := ":";
    match_ := match_ + name;
    match_ := match_ + ":";
    r := Strstr(screens, match_);
  }

  // ---- what is joined can be split and searched ----

  lemma ListedEnds(names: seq<string>)
    ensures names != [] ==> Listed(names) != "" && Listed(names)[|Listed(names)| - 1] == ':'
    ensures Splittable(Joined(names))
  {}

  lemma {:induction false} ListedCons(name: string, names: seq<string>)
    ensures Listed([name] + names) == name + ":" + Listed(names)
  {
    if names == [] {
      assert [name] + names == [name] && [name][..0] == [];
      assert Listed([]) + name + ":" == name + ":" + Listed([]);
    } else {
      var before, last := names[..|names| - 1], names[|names| - 1];
      ListedCons(name, before);
      assert [name] + names == ([name] + before) + [last];
      assert (([name] + before) + [last])[..|[name] + before|] == [name] + before;
      assert (name + ":" + Listed(before)) + last + ":" == name + ":" + (Listed(before) + last + ":");
    }
  }

  lemma {:induction false} ColonAfter(name: string, rest: string)
    requires Clean(name)
    ensures ':' in name + ":" + rest && ToColon(name + ":" + rest) == |name|
  {
    var s := name + ":" + rest;
    assert s[|name|] == ':';
    if name != "" {
      assert s[0] == name[0] && s[1..] == name[1..] + ":" + rest;
      ColonAfter(name[1..], rest);
    }
  }

  function Names(names: seq<string>): set<string> {
    set n | n in names
  }

  lemma SplitCons(name: string, tail: string, s: string)
    requires Clean(name) && s == name + ":" + tail && (tail == "" || tail[|tail| - 1] == ':')
    ensures s[|s| - 1] == ':' && SplitFrom(s) == {name} + SplitFrom(tail)
  {
    ColonAfter(name, tail);
    assert s[..|name|] == name && s[|name| + 1..] == tail;
  }

  lemma {:induction false} SplitListed(names: seq<string>)
    requires AllClean(names)
    ensures Listed(names) == "" || Listed(names)[|Listed(names)| - 1] == ':'
    ensures SplitFrom(Listed(names)) == Names(names)
  {
    if names != [] {
      var name, later := names[0], names[1..];
      assert names == [name] + later;
      assert Clean(name) && AllClean(later);
      SplitListed(later);
      ListedCons(name, later);
      SplitCons(name, Listed(later), Listed(names));
      NamesCons(name, later, names);
    }
  }

  lemma NamesCons(name: string, later: seq<string>, names: seq<string>)
    requires names == [name] + later
    ensures Names(names) == {name} + Names(later)
  {}

  /** Splitting undoes joining; but all destinations together are just "*". */
  lemma SplitUndoesJoin(names: seq<string>)
    requires AllClean(names)
    ensures Splittable(Joined(names))
    ensures SplitOf(Joined(names)) == if "*" in names then {"*"} else Names(names)
  {
    ListedEnds(names);
    if "*" !in names && names != [] {
      SplitListed(names);
      assert (":" + Listed(names))[1..] == Listed(names);
    }
  }

  /** A name between colons stands at the front of a list or further on. */
  lemma FoundFirstOrLater(first: string, rest: string, name: string)
    requires Clean(first) && Clean(name)
    ensures Occurs(":" + first + (":" + rest), ":" + name + ":")
            <==> name == first || Occurs(":" + rest, ":" + name + ":")
  {
    var s, later, m := ":" + first + (":" + rest), ":" + rest, ":" + name + ":";
    var skip := 1 + |first|;
    assert s[skip..] == later;
    if Occurs(s, m) {
      var i: nat :| OccursAt(s, m, i);
      FoundAt(first, rest, name, s, m, i);
    }
    if name == first {
      assert s[0..0 + |m|] == m;
      assert OccursAt(s, m, 0);
    } else if Occurs(later, m) {
      var i: nat :| OccursAt(later, m, i);
      assert s[skip + i..skip + i + |m|] == later[i..i + |m|];
      assert OccursAt(s, m, skip + i);
    }
  }

  lemma DifferentLengths(first: string, rest: string, name: string)
    requires Clean(first) && Clean(name) && |name| != |first|
    ensures !OccursAt(":" + first + (":" + rest), ":" + name + ":", 0)
  {
    var s, m := ":" + first + (":" + rest), ":" + name + ":";
    var k := if |name| < |first| then 1 + |name| else 1 + |first|;
    assert s[k] != m[k];
    if |m| <= |s| {
      assert s[0..|m|][k] == s[k];
    }
  }

  lemma NotInside(first: string, rest: string, name: string, i: nat)
    requires Clean(first) && 0 < i <= |first|
    ensures !OccursAt(":" + first + (":" + rest), ":" + name + ":", i)
  {
    var s, m := ":" + first + (":" + rest), ":" + name + ":";
    assert s[i] == first[i - 1];
    if i + |m| <= |s| {
      assert s[i..i + |m|][0] == s[i];
    }
  }

  lemma FoundAt(first: string, rest: string, name: string, s: string, m: string, i: nat)
    requires Clean(first) && Clean(name)
    requires s == ":" + first + (":" + rest) && m == ":" + name + ":" && OccursAt(s, m, i)
    ensures name == first || Occurs(":" + rest, m)
  {
    var later, skip := ":" + rest, 1 + |first|;
    if i == 0 && |name| != |first| {
      DifferentLengths(first, rest, name);
    } else if i == 0 {
      assert s[..|m|] == m && s[1..skip] == first && m[1..skip] == name;
      assert s[..|m|][1..skip] == s[1..skip];
    } else if i < skip {
      NotInside(first, rest, name, i);
    } else {
      assert later[i - skip..i - skip + |m|] == s[i..i + |m|];
      assert OccursAt(later, m, i - skip);
    }
  }

  lemma {:induction false} FoundInList(names: seq<string>, name: string)
    requires AllClean(names) && Clean(name)
    ensures Occurs(":" + Listed(names), ":" + name + ":") <==> name in names
  {
    var m := ":" + name + ":";
    if names == [] {
      assert ":" + Listed(names) == ":";
      assert forall i: nat :: !OccursAt(":", m, i);
    } else {
      var first, later := names[0], names[1..];
      assert names == [first] + later && Clean(first) && AllClean(later);
      ListedCons(first, later);
      assert ":" + Listed(names) == ":" + first + (":" + Listed(later));
      FoundFirstOrLater(first, Listed(later), name);
      FoundInList(later, name);
      assert name in names <==> name == first || name in later;
    }
  }

  /** Searching the joined string finds exactly the destinations, and everything when they
      include "*". */
  lemma SearchFindsDestinations(names: seq<string>, name: string)
    requires AllClean(names) && Clean(name)
    ensures var screens := Joined(names);
            (screens != "" && (screens[0] == '*' || Occurs(screens, ":" + name + ":")))
            <==> name in names || "*" in names
  {
    if "*" !in names && names != [] {
      FoundInList(names, name);
    }
  }
}
