/**
 * A variant event (class SNP): the consensus (reference) base, the
 * coordinate and the observed base, with its "r_p_b," text form.
 */
module Snp {
  import JString
  import opened Common

  /** consensus is the reference base at pos; base is what the read shows there. */
  datatype Event = Event(ref: char, pos: real, base: char)

  /** The no-argument constructor: position -1, both bases 'X'. */
  const DefaultEvent: Event := Event('X', -1.0, 'X')

  /** SNP.equals: all three fields agree. */
  predicate Equals(a: Event, b: Event)
  {
    a.pos == b.pos && a.ref == b.ref && a.base == b.base
  }

  /** Field-wise equality is value equality, hence an equivalence relation. */
  lemma EqualsIsIdentity(a: Event, b: Event)
    ensures Equals(a, b) <==> a == b
  {
  }

  /**
   * toString: consensus, '_', the coordinate's text, '_', base, ','.
   * The coordinate text (Double.toString) is supplied as posText.
   */
  function Text(e: Event, posText: real -> string): (s: string)
    ensures |s| == |posText(e.pos)| + 5
    ensures s[0] == e.ref && s[|s| - 2] == e.base && s[|s| - 1] == ','
  {
    [e.ref] + "_" + posText(e.pos) + "_" + [e.base] + ","
  }

  /** A coordinate text that can stand between the fields of a token. */
  predicate PlainText(t: string)
  {
    '_' !in t && ',' !in t
  }

  /**
   * How the consumers read a token back: split on '_', take the first
   * character of field 0 and 2 and parse field 1; None where Java would
   * throw (too few fields or an empty field).
   */
  function ParseToken(t: string, parse: string -> real): Option<Event>
  {
    var f := JString.Split(t, '_');
    if |f| >= 3 && |f[0]| >= 1 && |f[2]| >= 1 then Some(Event(f[0][0], parse(f[1]), f[2][0])) else None
  }

  /**
   * Round trip: splitting a token (comma removed) on '_' gives its three
   * fields, so parsing it recovers the event whenever parsing inverts the
   * coordinate text.
   */
  lemma {:induction false} TokenRoundTrip(e: Event, posText: real -> string, parse: string -> real)
    requires PlainText(posText(e.pos)) && e.ref != '_' && e.base != '_'
    requires parse(posText(e.pos)) == e.pos
    ensures var t := Text(e, posText); JString.Split(t[..|t| - 1], '_') == [[e.ref], posText(e.pos), [e.base]]
    ensures var t := Text(e, posText); ParseToken(t[..|t| - 1], parse) == Some(e)
  {
    var t := Text(e, posText);
    assert t[..|t| - 1] == [e.ref] + "_" + posText(e.pos) + "_" + [e.base];
    JString.SplitThree([e.ref], posText(e.pos), [e.base], '_');
  }
}
