/**
 * The shape of the range dataset the parser consults, and the first-match
 * search its two scans perform. The dataset's content is a parameter.
 */
module Ranges {
  import opened Wrappers
  import opened Text

  /** One rule: the bounds of its "min-max" range string and the element length it assigns. */
  datatype Rule = Rule(min: string, max: string, length: nat)

  /** Registration-group rules of one GS1 prefix ("978" or "979"). */
  datatype PrefixEntry = PrefixEntry(prefix: string, rules: seq<Rule>)

  /** Registrant rules of one registration group, keyed "<gs1>-<group>". */
  datatype GroupEntry = GroupEntry(prefix: string, agency: string, rules: seq<Rule>)

  datatype RangeTable = RangeTable(prefixes: seq<PrefixEntry>, groups: seq<GroupEntry>)

  /** `lo <= v && v <= hi`: a range that includes both of its bounds. */
  predicate InRange(v: string, lo: string, hi: string) {
    LexLe(lo, v) && LexLe(v, hi)
  }

  /** i is the position of the first element of xs that p accepts. */
  predicate IsFirst<T>(xs: seq<T>, p: T -> bool, i: nat) {
    i < |xs| && p(xs[i]) && forall j :: 0 <= j < i ==> !p(xs[j])
  }

  /** A `foreach` that stops at the first element p accepts. */
  function FirstIndex<T>(xs: seq<T>, p: T -> bool): (r: Option<nat>)
    ensures r.Some? ==> IsFirst(xs, p, r.value)
    ensures r.None? <==> forall j :: 0 <= j < |xs| ==> !p(xs[j])
  {
    if xs == [] then None
    else if p(xs[0]) then Some(0)
    else
      match FirstIndex(xs[1..], p)
      case None => None
      case Some(i) => Some(i + 1)
  }

  lemma FirstIndexOf<T>(xs: seq<T>, p: T -> bool, i: nat)
    requires IsFirst(xs, p, i)
    ensures FirstIndex(xs, p) == Some(i)
  {
  }
}
