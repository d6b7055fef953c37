/** Light identifiers. The class `Lid` appears three times in the repository
    (src/Lid.ts, src/LidMap.ts and src/Crossword.ts) with the same constructor
    and the same canonical string `start-type` (named `toInternalLid` in one
    copy and `toString` in the others); it is modelled once here. */
module Lids {
  import opened Options

  /** `lightType` is `None` when the parsed string had no second segment:
      `parts[1]` is then undefined and renders as "undefined". */
  datatype Lid = Lid(lightType: Option<string>, lightStart: string)

  /** `parts.join("-")`. */
  function Join(parts: seq<string>): string
    requires |parts| >= 1
  {
    if |parts| == 1 then parts[0] else parts[0] + "-" + Join(parts[1..])
  }

  ghost predicate DashFree(parts: seq<string>) {
    forall i :: 0 <= i < |parts| ==> '-' !in parts[i]
  }

  lemma JoinCons(c: char, parts: seq<string>)
    requires |parts| >= 1
    ensures Join([[c] + parts[0]] + parts[1..]) == [c] + Join(parts)
  {
    var ps := [[c] + parts[0]] + parts[1..];
    assert ps[1..] == parts[1..];
  }

  /** `s.split("-")`: the pieces between the dashes, none containing a dash,
      which joined with dashes give `s` back. */
  function Split(s: string): (parts: seq<string>)
    ensures |parts| >= 1
    ensures DashFree(parts)
    ensures Join(parts) == s
    decreases |s|
  {
    if |s| == 0 then [""]
    else if s[0] == '-' then
      var rest := Split(s[1..]);
      assert ([""] + rest)[1..] == rest;
      [""] + rest
    else
      var rest := Split(s[1..]);
      JoinCons(s[0], rest);
      [[s[0]] + rest[0]] + rest[1..]
  }

  /** Splitting at a dash that is preceded only by dash-free text. */
  lemma {:induction false} SplitAfterPrefix(a: string, rest: string)
    requires '-' !in a
    ensures Split(a) == [a]
    ensures Split(a + "-" + rest) == [a] + Split(rest)
  {
    if a == [] {
      assert a + "-" + rest == "-" + rest;
      assert ("-" + rest)[1..] == rest;
    } else {
      SplitAfterPrefix(a[1..], rest);
      assert (a + "-" + rest)[1..] == a[1..] + "-" + rest;
      assert [a[0]] + a[1..] == a;
    }
  }

  /** The constructor: with a non-empty second argument both fields are stored
      as given; otherwise the first argument is split at its dashes, and the
      first piece becomes the start and the second (if any) the type. */
  function New(typeOrString: string, start: Option<string>): (l: Lid)
    ensures start.Some? && start.value != "" ==> l == Lid(Some(typeOrString), start.value)
    ensures (start.None? || start.value == "") ==> ParsedFrom(l, typeOrString)
  {
    if start.Some? && start.value != "" then
      Lid(Some(typeOrString), start.value)
    else
      var parts := Split(typeOrString);
      if |parts| == 1 then
        Lid(None, parts[0])
      else
        JoinSecond(parts);
        Lid(Some(parts[1]), parts[0])
  }

  lemma JoinSecond(parts: seq<string>)
    requires |parts| >= 2
    ensures Join(parts) == parts[0] + "-" + parts[1]
         || (|parts| >= 3 && Join(parts) == parts[0] + "-" + parts[1] + "-" + Join(parts[2..]))
  {
    var tail := parts[1..];
    assert tail[0] == parts[1];
    if |parts| == 2 {
      assert Join(tail) == parts[1];
    } else {
      assert tail[1..] == parts[2..];
      assert Join(tail) == parts[1] + "-" + Join(parts[2..]);
    }
  }

  /** `l` is what parsing `s` must give: the start is the text before the first
      dash; the type, when present, is the dash-free text after it, up to the
      next dash or the end. */
  ghost predicate ParsedFrom(l: Lid, s: string) {
    && '-' !in l.lightStart
    && (l.lightType.None? ==> s == l.lightStart)
    && (l.lightType.Some? ==>
          && '-' !in l.lightType.value
          && var prefix := l.lightStart + "-" + l.lightType.value;
             (s == prefix || (|s| > |prefix| && s[..|prefix| + 1] == prefix + "-")))
  }

  function TypeText(t: Option<string>): string {
    match t
    case Some(v) => v
    case None => "undefined"
  }

  /** `toInternalLid()` / `toString()`: `${lightStart}-${lightType}`. */
  function Canonical(l: Lid): (s: string)
    ensures |s| > |l.lightStart| && s[..|l.lightStart| + 1] == l.lightStart + "-"
  {
    l.lightStart + "-" + TypeText(l.lightType)
  }

  /** `equals`: the canonical strings coincide. */
  function Equals(a: Lid, b: Lid): bool {
    Canonical(b) == Canonical(a)
  }

  /** Parsing the canonical string gives the fields back when the type is
      defined and neither field contains a dash. */
  lemma ParseRoundTrip(l: Lid)
    requires l.lightType.Some? && '-' !in l.lightType.value && '-' !in l.lightStart
    ensures New(Canonical(l), None) == l
  {
    SplitAfterPrefix(l.lightStart, l.lightType.value);
    SplitAfterPrefix(l.lightType.value, "");
  }

  /** The same for a Lid built by the two-argument constructor. */
  lemma ConstructParseRoundTrip(lightType: string, start: string)
    requires start != "" && '-' !in start && '-' !in lightType
    ensures New(Canonical(New(lightType, Some(start))), None) == New(lightType, Some(start))
  {
    ParseRoundTrip(New(lightType, Some(start)));
  }

  /** Without a type the canonical string carries the word "undefined", which
      parses back as a type. */
  lemma UndefinedTypeParsesAsText()
    ensures New(Canonical(Lid(None, "a")), None) == Lid(Some("undefined"), "a")
  {
    UndefinedIsDashFree();
    SplitAfterPrefix("a", "undefined");
    SplitAfterPrefix("undefined", "");
  }

  lemma UndefinedIsDashFree()
    ensures '-' !in "undefined"
  {
  }

  /** `equals` is an equivalence relation. */
  lemma EqualsIsEquivalence(a: Lid, b: Lid, c: Lid)
    ensures Equals(a, a)
    ensures Equals(a, b) == Equals(b, a)
    ensures Equals(a, b) && Equals(b, c) ==> Equals(a, c)
  {
  }

  /** Equal fields give equal Lids; the converse holds when no field contains
      a dash and the type is defined. */
  lemma EqualsIffSameFields(a: Lid, b: Lid)
    requires a.lightType.Some? && '-' !in a.lightType.value && '-' !in a.lightStart
    requires b.lightType.Some? && '-' !in b.lightType.value && '-' !in b.lightStart
    ensures Equals(a, b) <==> a == b
  {
    if Equals(a, b) {
      ParseRoundTrip(a);
      ParseRoundTrip(b);
    }
  }

  /** With dashes in the fields, different Lids can be `equals`. */
  lemma DashesConfuseEquals()
    ensures Equals(Lid(Some("c"), "a-b"), Lid(Some("b-c"), "a"))
    ensures Lid(Some("c"), "a-b") != Lid(Some("b-c"), "a")
  {
  }
}
