/** The post-processing `extPhoneNum` applies to the raw matches of its phone
    regular expression (extract.py:50-60). The matches themselves are an input. */
module PhoneNumbers {
  import opened Text

  /** Python's `\s` in a str pattern: the code points for which `str.isspace()` holds. */
  predicate IsSpace(c: char) {
    var n := c as int;
    (0x09 <= n <= 0x0D) || (0x1C <= n <= 0x20) || n == 0x85 || n == 0xA0 || n == 0x1680
    || (0x2000 <= n <= 0x200A) || n == 0x2028 || n == 0x2029 || n == 0x202F
    || n == 0x205F || n == 0x3000
  }

  /** The characters the class `[0-9+()\s]` admits; every other one is replaced. */
  predicate Allowed(c: char) {
    ('0' <= c <= '9') || c == '+' || c == '(' || c == ')' || IsSpace(c)
  }

  predicate AllAllowed(s: string) {
    forall i :: 0 <= i < |s| ==> Allowed(s[i])
  }

  /** `re.sub(r"[^0-9+()\s]", " ", raw)`: each disallowed character becomes one space. */
  function Clean(raw: string): (r: string)
    ensures |r| == |raw|
    ensures forall i :: 0 <= i < |raw| ==> r[i] == (if Allowed(raw[i]) then raw[i] else ' ')
    ensures AllAllowed(r)
  {
    if raw == [] then []
    else [if Allowed(raw[0]) then raw[0] else ' '] + Clean(raw[1..])
  }

  /** Cleaning is the identity on exactly the strings it can produce. */
  lemma CleanFixedPoints(s: string)
    ensures Clean(s) == s <==> AllAllowed(s)
    ensures Clean(Clean(s)) == Clean(s)
  {
  }

  /** The length filter `6 <= len(match) <= 18`. */
  predicate Keep(s: string) {
    6 <= |s| <= 18
  }

  /** The set `found_numbers` holds after the loop has seen `matches`. */
  function PhoneSet(matches: seq<string>): (r: set<string>)
    ensures forall x :: x in r ==> Keep(x) && AllAllowed(x)
  {
    if matches == [] then {}
    else
      var last := Clean(matches[|matches| - 1]);
      PhoneSet(matches[..|matches| - 1]) + (if Keep(last) then {last} else {})
  }

  /** A string is in the result exactly when it is the cleaned form of some raw
      match and passes the length filter. */
  lemma {:induction false} PhoneSetMembers(matches: seq<string>, x: string)
    ensures x in PhoneSet(matches) <==>
      Keep(x) && exists i :: 0 <= i < |matches| && Clean(matches[i]) == x
  {
    if matches != [] {
      var init := matches[..|matches| - 1];
      PhoneSetMembers(init, x);
      if x in PhoneSet(init) {
        var i :| 0 <= i < |init| && Clean(init[i]) == x;
        assert matches[i] == init[i];
      }
      if Keep(x) && (exists i :: 0 <= i < |matches| && Clean(matches[i]) == x) {
        var i :| 0 <= i < |matches| && Clean(matches[i]) == x;
        if i < |init| {
          assert init[i] == matches[i];
        }
      }
    }
  }

  /** The result depends only on which raw matches occur, not on their order or
      on how often each occurs. */
  lemma PhoneSetOrderInsensitive(a: seq<string>, b: seq<string>)
    requires forall m :: m in a <==> m in b
    ensures PhoneSet(a) == PhoneSet(b)
  {
    forall x ensures x in PhoneSet(a) <==> x in PhoneSet(b) {
      PhoneSetMembers(a, x);
      PhoneSetMembers(b, x);
      if Keep(x) && exists i :: 0 <= i < |a| && Clean(a[i]) == x {
        var i :| 0 <= i < |a| && Clean(a[i]) == x;
        assert a[i] in a;
        var j :| 0 <= j < |b| && b[j] == a[i];
      }
      if Keep(x) && exists j :: 0 <= j < |b| && Clean(b[j]) == x {
        var j :| 0 <= j < |b| && Clean(b[j]) == x;
        assert b[j] in b;
        var i :| 0 <= i < |a| && a[i] == b[j];
      }
    }
  }

  /** Line breaks are whitespace and survive cleaning: a raw match of allowed
      characters with length 6..18, such as "555\n123 4567", is kept as it is, so
      a kept string can span several output lines. */
  lemma KeptLineBreak(raw: string)
    requires AllAllowed(raw) && Keep(raw)
    ensures Allowed('\n') && Allowed('\r')
    ensures PhoneSet([raw]) == {raw}
  {
    CleanFixedPoints(raw);
    assert [raw][..0] == [];
  }

  /** No string occurs twice in `s`. */
  predicate NoDup(s: seq<string>) {
    forall i, j :: 0 <= i < j < |s| ==> s[i] != s[j]
  }

  /** The printed line for the strings of the set, in the order the set yields them. */
  function PhoneLine(order: seq<string>): string {
    if order == [] then "None" else Join(order, ", ")
  }

  /** A cleaned string holds neither the comma of the separator nor the 'N' of "None". */
  lemma AllowedExcludes(s: string)
    requires AllAllowed(s)
    ensures ',' !in s && 'N' !in s
  {
  }

  /** The printed line reads back unambiguously: it is "None" exactly for the empty
      set, and otherwise splitting it at ", " gives the strings that were joined. */
  lemma PhoneLineDecodes(order: seq<string>)
    requires forall k :: 0 <= k < |order| ==> AllAllowed(order[k])
    ensures PhoneLine(order) == "None" <==> order == []
    ensures order != [] ==> SplitAtSeparators(PhoneLine(order)) == order
  {
    if order != [] {
      forall j | 0 <= j < |order| ensures ',' !in order[j] && 'N' !in order[j] {
        AllowedExcludes(order[j]);
      }
      SplitJoin(order);
      var line := Join(order, ", ");
      assert 'N' !in line;
    }
  }

  /** Iterating over a Python set: every element once, in an order that is not
      specified (modelled by an arbitrary choice at each step). */
  method Enumerate(s: set<string>) returns (order: seq<string>)
    ensures NoDup(order)
    ensures forall x :: x in order <==> x in s
    ensures |order| == |s|
  {
    order := [];
    var rest := s;
    while rest != {}
      invariant rest <= s
      invariant forall x :: x in order <==> x in s && x !in rest
      invariant NoDup(order)
      invariant |order| + |rest| == |s|
      decreases rest
    {
      var x :| x in rest;
      order := order + [x];
      rest := rest - {x};
    }
  }

  /** `extPhoneNum` after the regular expression: clean, filter by length, collect
      into a set, then print the set joined with ", " or "None". Returns the printed
      line and the order in which the set was iterated. */
  method ExtPhoneNum(matches: seq<string>) returns (line: string, order: seq<string>)
    ensures NoDup(order)
    ensures forall x :: x in order <==> x in PhoneSet(matches)
    ensures line == PhoneLine(order)
    ensures line == "None" <==> PhoneSet(matches) == {}
    ensures line != "None" ==> SplitAtSeparators(line) == order
  {
    var found: set<string> := {};
    for i := 0 to |matches|
      invariant found == PhoneSet(matches[..i])
    {
      assert matches[..i + 1][..i] == matches[..i];
      var m := Clean(matches[i]);
      if 6 <= |m| <= 18 {
        found := found + {m};
      }
    }
    assert matches[..|matches|] == matches;
    order := Enumerate(found);
    if found != {} {
      line := Join(order, ", ");
    } else {
      line := "None";
    }
    PhoneLineDecodes(order);
  }
}
