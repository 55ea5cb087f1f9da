/**
 * The URL that `getRoutes` requests from the routes endpoint: the base path,
 * followed, when any type codes are given, by a type filter listing them.
 */
module MbtaApi {
  import opened Wrappers
  import opened Text

  const ApiTarget: string := "https://api-v3.mbta.com"
  const RoutesPath: string := ApiTarget + "/routes"
  const TypeFilter: string := "?filter[type]="

  /** The type codes as `joinToString(separator = ",")` renders them. */
  function JoinCodes(types: seq<int>): string {
    Join(seq(|types|, i requires 0 <= i < |types| => IntToString(types[i])), ",")
  }

  /** The URL `getRoutes(*types)` requests. */
  function RoutesUrl(types: seq<int>): (url: string)
    ensures RoutesPath <= url
    ensures types == [] <==> url == RoutesPath
  {
    var url := RoutesPath;
    if |types| > 0 then url + TypeFilter + JoinCodes(types) else url
  }

  /**
   * Reads the requested type codes back out of a routes URL: none for the bare
   * path, the comma-separated codes after the type filter otherwise.
   */
  function RequestedTypes(url: string): Option<seq<int>> {
    if url == RoutesPath then Some([])
    else if RoutesPath + TypeFilter <= url then ParseAll(Split(url[|RoutesPath + TypeFilter|..], ','))
    else None
  }

  function ParseAll(fields: seq<string>): Option<seq<int>> {
    if fields == [] then Some([])
    else match (ParseInt(fields[0]), ParseAll(fields[1..]))
      case (Some(n), Some(rest)) => Some([n] + rest)
      case _ => None
  }

  lemma {:induction false} ParseAllRendered(types: seq<int>)
    ensures ParseAll(seq(|types|, i requires 0 <= i < |types| => IntToString(types[i]))) == Some(types)
  {
    var fields := seq(|types|, i requires 0 <= i < |types| => IntToString(types[i]));
    if types != [] {
      IntToStringRoundTrip(types[0]);
      assert fields[1..] == seq(|types[1..]|, i requires 0 <= i < |types[1..]| => IntToString(types[1..][i]));
      ParseAllRendered(types[1..]);
      assert types == [types[0]] + types[1..];
    }
  }

  /**
   * The URL carries exactly the codes given, in the order given, duplicates
   * included: nothing is filtered, reordered or validated.
   */
  lemma RoutesUrlRoundTrip(types: seq<int>)
    ensures RequestedTypes(RoutesUrl(types)) == Some(types)
  {
    if types != [] {
      var fields := seq(|types|, i requires 0 <= i < |types| => IntToString(types[i]));
      forall i | 0 <= i < |fields| ensures ',' !in fields[i] {
        IntToStringChars(types[i], ',');
      }
      SplitJoin(fields, ',');
      var url := RoutesUrl(types);
      assert url == (RoutesPath + TypeFilter) + JoinCodes(types);
      assert url != RoutesPath by {
        assert |url| > |RoutesPath|;
      }
      assert url[|RoutesPath + TypeFilter|..] == JoinCodes(types);
      ParseAllRendered(types);
    }
  }

  /** Neither the endpoint nor the type filter holds a comma. */
  lemma PrefixHasNoComma()
    ensures Count(RoutesPath, ',') == 0
    ensures Count(RoutesPath + TypeFilter, ',') == 0
  {
    forall i | 0 <= i < |RoutesPath| ensures RoutesPath[i] != ',' { }
    CountAbsent(RoutesPath, ',');
    var prefix := RoutesPath + TypeFilter;
    forall i | 0 <= i < |prefix| ensures prefix[i] != ',' { }
    CountAbsent(prefix, ',');
  }

  /** n codes are separated by exactly n - 1 commas; the bare path has none. */
  lemma RoutesUrlCommas(types: seq<int>)
    ensures Count(RoutesUrl(types), ',') == if types == [] then 0 else |types| - 1
  {
    PrefixHasNoComma();
    if types != [] {
      var fields := seq(|types|, i requires 0 <= i < |types| => IntToString(types[i]));
      forall i | 0 <= i < |fields| ensures Count(fields[i], ',') == 0 {
        IntToStringChars(types[i], ',');
      }
      JoinCount(fields, ',');
      CountAppend(RoutesPath + TypeFilter, JoinCodes(types), ',');
    }
  }
}
