/** The text form of the substitutions found in one window: each is written
    "{ref}{position}{mut}" (the wild-type residue, its 1-based position in the
    protein, the peptide's residue) and they are joined by "; ", as in
    "A1G; C2T". A parser for that text is the partner that shows the text
    loses nothing. */
module MutationNotation {
  import Decimal

  datatype Option<T> = None | Some(value: T)

  /** One point substitution at a 1-based position of a protein. */
  datatype Substitution = Substitution(ref: char, position: nat, mut: char)

  const Separator: string := "; "

  /** The notation of one substitution, e.g. "A5B". */
  function Notation(s: Substitution): string {
    [s.ref] + Decimal.FromNat(s.position) + [s.mut]
  }

  /** Python's `sep.join(parts)`. */
  function Join(parts: seq<string>, sep: string): (r: string)
    ensures parts == [] ==> r == []
    ensures |parts| == 1 ==> r == parts[0]
    ensures parts != [] ==> |parts[0]| <= |r| && r[..|parts[0]|] == parts[0]
  {
    if |parts| == 0 then []
    else if |parts| == 1 then parts[0]
    else parts[0] + sep + Join(parts[1..], sep)
  }

  function Notations(subs: seq<Substitution>): seq<string> {
    seq(|subs|, k requires 0 <= k < |subs| => Notation(subs[k]))
  }

  /** The mutation text of a list of substitutions, in the list's order; it is
      empty exactly when there is nothing to report. */
  function Render(subs: seq<Substitution>): (t: string)
    ensures t == [] <==> subs == []
  {
    Join(Notations(subs), Separator)
  }

  /** `Separator` starts at index `j` of `t`. */
  predicate SeparatorAt(t: string, j: nat) {
    j + 2 <= |t| && t[j] == Separator[0] && t[j + 1] == Separator[1]
  }

  /** The index of the first `Separator` in `t`, or `|t|` when there is none. */
  function FindSeparator(t: string): (k: nat)
    ensures k <= |t|
    ensures k < |t| ==> SeparatorAt(t, k)
    ensures forall j: nat :: j < k ==> !SeparatorAt(t, j)
    decreases |t|
  {
    if |t| < 2 then |t|
    else if SeparatorAt(t, 0) then 0
    else
      var k := FindSeparator(t[1..]);
      assert forall j: nat :: 1 <= j ==> (SeparatorAt(t, j) <==> SeparatorAt(t[1..], j - 1));
      1 + k
  }

  /** Reads one "{ref}{digits}{mut}": the first character, a non-empty run
      of decimal digits, the last character. */
  function ParseEntry(e: string): Option<Substitution> {
    if |e| >= 3 && Decimal.AllDigits(e[1..|e| - 1])
    then Some(Substitution(e[0], Decimal.Value(e[1..|e| - 1]), e[|e| - 1]))
    else None
  }

  /** One or more entries separated by `Separator`, and nothing else. */
  function ParseList(t: string): Option<seq<Substitution>>
    decreases |t|
  {
    var k := FindSeparator(t);
    match ParseEntry(t[..k])
    case None => None
    case Some(s) =>
      if k == |t| then Some([s])
      else
        match ParseList(t[k + 2..])
        case None => None
        case Some(more) => Some([s] + more)
  }

  /** Reads a mutation text back into its substitutions. */
  function Parse(t: string): Option<seq<Substitution>> {
    if t == [] then Some([]) else ParseList(t)
  }

  /** A notation's entry reads back as the substitution it was written from. */
  lemma ParseEntryNotation(s: Substitution)
    ensures ParseEntry(Notation(s)) == Some(s)
  {
    var e := Notation(s);
    var digits := Decimal.FromNat(s.position);
    assert e[1..|e| - 1] == digits;
    Decimal.ValueOfFromNat(s.position);
  }

  /** A character that does not start a separator is skipped by the
      search. */
  lemma FindSeparatorSkip(c: char, t: string)
    requires c != Separator[0] || t == [] || t[0] != Separator[1]
    ensures FindSeparator([c] + t) == 1 + FindSeparator(t)
  {
    var u := [c] + t;
    assert u[1..] == t;
    assert !SeparatorAt(u, 0);
  }

  lemma {:induction false} FindSeparatorSkipDigits(digits: string, t: string)
    requires Decimal.AllDigits(digits)
    ensures FindSeparator(digits + t) == |digits| + FindSeparator(t)
    decreases |digits|
  {
    if digits != [] {
      assert digits + t == [digits[0]] + (digits[1..] + t);
      FindSeparatorSkip(digits[0], digits[1..] + t);
      FindSeparatorSkipDigits(digits[1..], t);
    } else {
      assert digits + t == t;
    }
  }

  /** No separator starts inside a notation: the first one in a notation
      followed by `tail` is at the start of `tail`, when `tail` is empty or
      starts with the separator's ';'. */
  lemma FindSeparatorAfterNotation(s: Substitution, tail: string)
    requires tail == [] || tail[0] == Separator[0]
    ensures FindSeparator(Notation(s) + tail) == |Notation(s)| + FindSeparator(tail)
  {
    var digits := Decimal.FromNat(s.position);
    assert Notation(s) + tail == [s.ref] + (digits + ([s.mut] + tail));
    FindSeparatorSkip(s.mut, tail);
    FindSeparatorSkipDigits(digits, [s.mut] + tail);
    assert (digits + ([s.mut] + tail))[0] == digits[0];
    FindSeparatorSkip(s.ref, digits + ([s.mut] + tail));
  }

  /** The text of one substitution is its notation. */
  lemma RenderOne(s: Substitution)
    ensures Render([s]) == Notation(s)
  {
    assert Notations([s]) == [Notation(s)];
  }

  /** The text of two or more substitutions is the first one's notation, the
      separator, then the text of the rest. */
  lemma RenderCons(subs: seq<Substitution>)
    requires |subs| >= 2
    ensures Render(subs) == Notation(subs[0]) + (Separator + Render(subs[1..]))
  {
    var parts := Notations(subs);
    assert parts[1..] == Notations(subs[1..]);
    assert Join(parts, Separator) == parts[0] + Separator + Join(parts[1..], Separator);
  }

  /** The text of a single notation reads back as that one substitution. */
  lemma ParseListNotation(s: Substitution)
    ensures ParseList(Notation(s)) == Some([s])
  {
    var e := Notation(s);
    ParseEntryNotation(s);
    FindSeparatorAfterNotation(s, []);
    assert e + [] == e;
    assert e[..|e|] == e;
  }

  /** Text whose first separator ends entry `e` reads back as `e`'s
      substitution followed by whatever the rest reads back as. */
  lemma ParseListSplit(e: string, rest: string)
    requires FindSeparator(e + (Separator + rest)) == |e|
    ensures ParseList(e + (Separator + rest))
            == match ParseEntry(e)
               case None => None
               case Some(s) =>
                 match ParseList(rest)
                 case None => None
                 case Some(more) => Some([s] + more)
  {
    var t := e + (Separator + rest);
    assert t[..|e|] == e;
    assert t[|e| + 2..] == rest;
  }

  /** A notation, the separator and more text read back as that substitution
      followed by whatever the rest reads back as. */
  lemma ParseListNotationThen(s: Substitution, rest: string)
    ensures ParseList(Notation(s) + (Separator + rest))
            == match ParseList(rest)
               case None => None
               case Some(more) => Some([s] + more)
  {
    ParseEntryNotation(s);
    FindSeparatorAfterNotation(s, Separator + rest);
    ParseListSplit(Notation(s), rest);
  }

  lemma {:induction false} ParseListRender(subs: seq<Substitution>)
    requires subs != []
    ensures ParseList(Render(subs)) == Some(subs)
    decreases |subs|
  {
    if |subs| == 1 {
      RenderOne(subs[0]);
      ParseListNotation(subs[0]);
      assert [subs[0]] == subs;
    } else {
      RenderCons(subs);
      ParseListNotationThen(subs[0], Render(subs[1..]));
      ParseListRender(subs[1..]);
      assert [subs[0]] + subs[1..] == subs;
    }
  }

  /** Round trip: the mutation text determines the substitutions, their order
      included. */
  lemma ParseRender(subs: seq<Substitution>)
    ensures Parse(Render(subs)) == Some(subs)
  {
    if subs != [] {
      ParseListRender(subs);
    }
  }

  /** Two lists of substitutions with the same text are the same list. */
  lemma RenderInjective(a: seq<Substitution>, b: seq<Substitution>)
    requires Render(a) == Render(b)
    ensures a == b
  {
    ParseRender(a);
    ParseRender(b);
  }
}
