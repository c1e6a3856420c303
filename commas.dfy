/**
 * The thousands-separator step of `clean_population_data`: every text cell
 * of an object column goes through `str.replace(',', '')` before it is
 * converted to a number. Only the string transformation is modelled.
 */
module Commas {

  /** `s.replace(',', '')`: every comma deleted, everything else kept. */
  function RemoveCommas(s: string): (r: string)
    ensures ',' !in r
    ensures |r| == |s| - multiset(s)[',']
  {
    if s == [] then []
    else
      assert s == [s[0]] + s[1..];
      Keep(s[0]) + RemoveCommas(s[1..])
  }

  function Keep(c: char): (k: string) {
    if c == ',' then [] else [c]
  }

  /** Removal works piece by piece: on a concatenation it is the
      concatenation of the two results. */
  lemma {:induction false} RemoveCommasAppend(a: string, b: string)
    ensures RemoveCommas(a + b) == RemoveCommas(a) + RemoveCommas(b)
  {
    if a != [] {
      var ab := a + b;
      assert ab[0] == a[0] && ab[1..] == a[1..] + b;
      assert RemoveCommas(ab) == Keep(a[0]) + RemoveCommas(a[1..] + b);
      RemoveCommasAppend(a[1..], b);
    } else {
      assert a + b == b;
    }
  }

  /** Order is kept: a non-comma at position `k` of `s` lands right after
      what remains of the text before it. */
  lemma RemoveCommasAt(s: string, k: nat)
    requires k < |s| && s[k] != ','
    ensures |RemoveCommas(s[..k])| < |RemoveCommas(s)|
    ensures RemoveCommas(s)[|RemoveCommas(s[..k])|] == s[k]
  {
    assert s == s[..k] + ([s[k]] + s[k + 1..]);
    RemoveCommasAppend(s[..k], [s[k]] + s[k + 1..]);
    RemoveCommasAppend([s[k]], s[k + 1..]);
    assert [s[k]][1..] == [];
  }

  /** A text is left unchanged exactly when it has no comma. */
  lemma {:induction false} RemoveCommasFixed(s: string)
    ensures RemoveCommas(s) == s <==> ',' !in s
  {
    if s != [] {
      RemoveCommasFixed(s[1..]);
      assert s == [s[0]] + s[1..];
      if s[0] != ',' {
        assert ',' in s <==> ',' in s[1..];
      }
    }
  }

  /** Removing commas twice is removing them once. */
  lemma Idempotent(s: string)
    ensures RemoveCommas(RemoveCommas(s)) == RemoveCommas(s)
  {
    RemoveCommasFixed(RemoveCommas(s));
  }

  /** Exactly the commas are gone: every other character keeps its number
      of occurrences. */
  lemma {:induction false} RemoveCommasMultiset(s: string)
    ensures forall c :: multiset(RemoveCommas(s))[c] == if c == ',' then 0 else multiset(s)[c]
  {
    if s != [] {
      RemoveCommasMultiset(s[1..]);
      assert s == [s[0]] + s[1..];
      assert RemoveCommas(s) == Keep(s[0]) + RemoveCommas(s[1..]);
      forall c ensures multiset(RemoveCommas(s))[c] == if c == ',' then 0 else multiset(s)[c] {
        assert multiset(s)[c] == multiset([s[0]])[c] + multiset(s[1..])[c];
        assert multiset(RemoveCommas(s))[c] == multiset(Keep(s[0]))[c] + multiset(RemoveCommas(s[1..]))[c];
      }
    }
  }
}
