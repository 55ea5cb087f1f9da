/**
 * `findStop`: resolves a user-supplied stop name, ignoring case. An exact name
 * wins; otherwise the first stop whose name contains the query is taken and a
 * notice says so; otherwise there is no stop.
 */
module StopResolver {
  import opened Wrappers
  import opened Text
  import opened Transit

  /** The result of a lookup together with the notices it echoed. */
  datatype Lookup = Lookup(stop: Option<Stop>, notices: seq<string>)

  /** `firstOrNull(p)`, as an index into `s`. */
  function FirstWhere<T>(s: seq<T>, p: T -> bool): (r: Option<nat>)
    ensures r.Some? ==> r.value < |s| && p(s[r.value]) && forall j :: 0 <= j < r.value ==> !p(s[j])
    ensures r.None? ==> forall j :: 0 <= j < |s| ==> !p(s[j])
  {
    if s == [] then None
    else if p(s[0]) then Some(0)
    else match FirstWhere(s[1..], p)
      case None => None
      case Some(i) => Some(i + 1)
  }

  predicate NameIs(s: Stop, query: string) {
    Lower(s.attributes.name) == Lower(query)
  }

  predicate NameContains(s: Stop, query: string) {
    Contains(Lower(s.attributes.name), Lower(query))
  }

  function ApproximationNotice(query: string, s: Stop): string {
    query + " not found, approximating to " + s.attributes.name
  }

  /** Position i holds the first stop whose name equals the query. */
  ghost predicate FirstExactAt(stops: seq<Stop>, query: string, i: int) {
    0 <= i < |stops| && NameIs(stops[i], query) && forall j :: 0 <= j < i ==> !NameIs(stops[j], query)
  }

  /** Position i holds the first stop whose name contains the query. */
  ghost predicate FirstApproximateAt(stops: seq<Stop>, query: string, i: int) {
    0 <= i < |stops| && NameContains(stops[i], query) && forall j :: 0 <= j < i ==> !NameContains(stops[j], query)
  }

  function FindStop(stops: seq<Stop>, name: string): (r: Lookup)
    // an exact match wins, whatever comes before it, and is silent
    ensures forall i :: FirstExactAt(stops, name, i) ==> r == Lookup(Some(stops[i]), [])
    // failing that, the first approximate match, with exactly one notice
    ensures (forall j :: 0 <= j < |stops| ==> !NameIs(stops[j], name)) ==>
              forall i :: FirstApproximateAt(stops, name, i) ==>
                r == Lookup(Some(stops[i]), [ApproximationNotice(name, stops[i])])
    // nothing is found exactly when no stop name contains the query
    ensures r.stop.None? <==> forall j :: 0 <= j < |stops| ==> !NameContains(stops[j], name)
    ensures r.stop.None? ==> r.notices == []
  {
    match FirstWhere(stops, s => NameIs(s, name))
    case Some(i) => Lookup(Some(stops[i]), [])
    case None =>
      match FirstWhere(stops, s => NameContains(s, name))
      case Some(i) => Lookup(Some(stops[i]), [ApproximationNotice(name, stops[i])])
      case None =>
        assert forall j :: 0 <= j < |stops| ==> !NameIs(stops[j], name) by {
          forall j | 0 <= j < |stops| ensures !NameIs(stops[j], name) {
            ContainsSelf(Lower(name));
          }
        }
        Lookup(None, [])
  }

  /** An exact match is preferred to any approximate one, wherever the two lie. */
  lemma ExactBeatsApproximate(stops: seq<Stop>, name: string, exact: nat, approx: nat)
    requires exact < |stops| && NameIs(stops[exact], name)
    requires approx < |stops| && !NameIs(stops[approx], name)
    ensures FindStop(stops, name).stop != Some(stops[approx])
    ensures FindStop(stops, name).notices == []
  {
    var i := FirstWhere(stops, s => NameIs(s, name));
    assert FirstExactAt(stops, name, i.value);
  }

  lemma ScenarioNames(davis: Stop, kendall: Stop)
    requires davis.attributes.name == "Davis" && kendall.attributes.name == "Kendall/MIT"
    ensures NameContains(kendall, "kendall") && !NameIs(kendall, "kendall")
    ensures !NameContains(davis, "kendall") && !NameIs(davis, "kendall")
  {
    assert Lower("kendall") == "kendall";
    assert Lower("Kendall/MIT") == "kendall/mit";
    assert Lower("Davis") == "davis";
    assert !Contains("davis", "kendall");
  }

  /** A shortened name resolves to the stop whose name it begins, with a notice (davis to kendall). */
  lemma ShortNameApproximates(davis: Stop, kendall: Stop)
    requires davis.attributes.name == "Davis" && kendall.attributes.name == "Kendall/MIT"
    ensures FindStop([davis, kendall], "kendall")
              == Lookup(Some(kendall), ["kendall not found, approximating to Kendall/MIT"])
  {
    var stops := [davis, kendall];
    ScenarioNames(davis, kendall);
    assert forall j :: 0 <= j < |stops| ==> !NameIs(stops[j], "kendall");
    assert FirstApproximateAt(stops, "kendall", 1);
    NoticeText(kendall);
  }

  lemma NoticeText(kendall: Stop)
    requires kendall.attributes.name == "Kendall/MIT"
    ensures ApproximationNotice("kendall", kendall) == "kendall not found, approximating to Kendall/MIT"
  {
  }
}
