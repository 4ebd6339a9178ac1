/** String helpers shared by the extractors: searching, joining and splitting. */
module Text {

  /** The index of the first occurrence of `c` in `s`, or `|s|` when there is none. */
  function IndexOf(s: string, c: char): (i: nat)
    ensures i <= |s|
    ensures i < |s| ==> s[i] == c
    ensures forall k :: 0 <= k < i ==> s[k] != c
  {
    if s == [] then 0
    else if s[0] == c then 0
    else 1 + IndexOf(s[1..], c)
  }

  /** Python's `sep.join(parts)`: the parts in order with `sep` between neighbours. */
  function Join(parts: seq<string>, sep: string): (r: string)
    ensures |parts| >= 1 ==> |parts[0]| <= |r| && r[..|parts[0]|] == parts[0]
    ensures forall c :: c in r ==> c in sep || exists j :: 0 <= j < |parts| && c in parts[j]
  {
    if |parts| == 0 then ""
    else if |parts| == 1 then parts[0]
    else parts[0] + sep + Join(parts[1..], sep)
  }

  /** Cuts `s` at every comma and drops the one character after it: it undoes
      `Join(_, ", ")` on parts that hold no comma (see SplitJoin). */
  function SplitAtSeparators(s: string): (r: seq<string>)
    ensures |r| >= 1
    ensures forall j :: 0 <= j < |r| ==> ',' !in r[j]
    decreases |s|
  {
    var i := IndexOf(s, ',');
    if i == |s| then [s]
    else [s[..i]] + SplitAtSeparators(s[if i + 2 <= |s| then i + 2 else |s|..])
  }

  /** The first comma of `p + ", " + t` is the one after `p` when `p` has none. */
  lemma SplitAfterPart(p: string, t: string)
    requires ',' !in p
    ensures SplitAtSeparators(p + ", " + t) == [p] + SplitAtSeparators(t)
  {
    var s := p + ", " + t;
    assert s[|p|] == ',';
    assert forall k :: 0 <= k < |p| ==> s[k] == p[k];
    var i := IndexOf(s, ',');
    assert i == |p|;
    assert s[..i] == p;
    assert s[i + 2..] == t;
  }

  /** Joining comma-free parts with ", " loses nothing: splitting gives them back. */
  lemma {:induction false} SplitJoin(parts: seq<string>)
    requires |parts| >= 1
    requires forall j :: 0 <= j < |parts| ==> ',' !in parts[j]
    ensures SplitAtSeparators(Join(parts, ", ")) == parts
  {
    if |parts| > 1 {
      var t := Join(parts[1..], ", ");
      assert Join(parts, ", ") == parts[0] + ", " + t;
      SplitAfterPart(parts[0], t);
      SplitJoin(parts[1..]);
      assert parts == [parts[0]] + parts[1..];
    }
  }
}
