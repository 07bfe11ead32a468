/**
 * The query translation behind `GET /api/v1/releases`: the release status
 * codes a `status` query parameter selects, and the list options (sort key,
 * sort order, limit, offset, filter, statuses, namespace) chosen from the
 * request's query parameters.
 */
module Releases {
  import opened Wrappers
  import opened GoStrings

  /** Helm's release status codes. */
  datatype StatusCode =
    | Unknown
    | Deployed
    | Deleted
    | Superseded
    | Failed
    | Deleting
    | PendingInstall
    | PendingUpgrade
    | PendingRollback

  /** Helm's list sort keys, as far as the query can choose them. */
  datatype SortBy = Name | LastReleased

  /** Helm's list sort orders. */
  datatype SortOrder = Asc | Desc

  /** The values handed to the release-list call. */
  datatype ListOptions = ListOptions(
    sortBy: SortBy,
    sortOrder: SortOrder,
    limit: int,
    offset: string,
    filter: string,
    statusCodes: seq<StatusCode>,
    namespace: string)

  /** The codes that `status=all` selects: every status except Superseded. */
  const ALL_STATUSES: seq<StatusCode> :=
    [Unknown, Deployed, Deleted, Deleting, Failed, PendingInstall, PendingUpgrade, PendingRollback]

  /** The order in which keyword-selected codes are reported. */
  const FILTER_ORDER: seq<StatusCode> :=
    [Deployed, Deleted, Deleting, Failed, Superseded, PendingInstall, PendingUpgrade, PendingRollback]

  /** The statuses listed when the request has no `status` parameter. */
  const DEFAULT_STATUSES: seq<StatusCode> := [Deployed, Failed]

  /** The limit used when the `limit` parameter is not an integer. */
  const DEFAULT_LIMIT := 256

  /** The segment that selects a status code; Unknown is selected by none. */
  function Keyword(c: StatusCode): Option<string> {
    match c
    case Unknown => None
    case Deployed => Some("deployed")
    case Deleted => Some("deleted")
    case Deleting => Some("deleting")
    case Failed => Some("failed")
    case Superseded => Some("superseded")
    case PendingInstall | PendingUpgrade | PendingRollback => Some("pending")
  }

  predicate Selected(segments: seq<string>, c: StatusCode) {
    Keyword(c).Some? && Keyword(c).value in segments
  }

  /** The codes of `cs`, in their order, whose keyword is among `segments`. */
  function Select(cs: seq<StatusCode>, segments: seq<string>): seq<StatusCode> {
    if cs == [] then []
    else (if Selected(segments, cs[0]) then [cs[0]] else []) + Select(cs[1..], segments)
  }

  /** One keyword test of `ReleaseStatusCodes`: `c` is appended exactly when `Select` keeps it. */
  lemma SelectStep(acc: seq<StatusCode>, c: StatusCode, cs: seq<StatusCode>, segments: seq<string>)
    requires Keyword(c).Some?
    ensures acc + Select([c] + cs, segments)
         == (if Keyword(c).value in segments then acc + [c] else acc) + Select(cs, segments)
  {
    SelectCons(c, cs, segments);
  }

  /** The last keyword test of `ReleaseStatusCodes`: "pending" keeps all three pending codes or none. */
  lemma SelectPending(acc: seq<StatusCode>, segments: seq<string>)
    ensures acc + Select([PendingInstall, PendingUpgrade, PendingRollback], segments)
         == if "pending" in segments then acc + [PendingInstall, PendingUpgrade, PendingRollback] else acc
  {
    SelectCons(PendingRollback, [], segments);
    SelectCons(PendingUpgrade, [PendingRollback], segments);
    SelectCons(PendingInstall, [PendingUpgrade, PendingRollback], segments);
  }

  /** `Select` decides the first code and then the rest. */
  lemma SelectCons(c: StatusCode, cs: seq<StatusCode>, segments: seq<string>)
    ensures Select([c] + cs, segments) == (if Selected(segments, c) then [c] else []) + Select(cs, segments)
  {
    assert ([c] + cs)[0] == c && ([c] + cs)[1..] == cs;
  }

  /** The status codes a `status` parameter stands for. */
  function StatusesFor(code: string): seq<StatusCode> {
    if code == "all" then ALL_STATUSES else Select(FILTER_ORDER, Split(code, ','))
  }

  predicate Distinct<T(==)>(s: seq<T>) {
    forall i, j :: 0 <= i < j < |s| ==> s[i] != s[j]
  }

  /** `xs` is `ys` with some elements left out. */
  predicate IsSubsequence<T(==)>(xs: seq<T>, ys: seq<T>)
    decreases |ys|
  {
    xs == [] ||
    (ys != [] &&
     ((xs[0] == ys[0] && IsSubsequence(xs[1..], ys[1..])) || IsSubsequence(xs, ys[1..])))
  }

  /** A linear membership test over a list of strings. */
  method Contains(arr: seq<string>, str: string) returns (found: bool)
    ensures found <==> str in arr
  {
    for i := 0 to |arr|
      invariant forall j :: 0 <= j < i ==> arr[j] != str
    {
      if arr[i] == str {
        return true;
      }
    }
    return false;
  }

  /**
   * The status codes a `status` parameter selects: all but Superseded for
   * the whole string "all"; otherwise the codes whose keyword is one of the
   * comma-separated segments, each checked once, in a fixed order.
   */
  method ReleaseStatusCodes(code: string) returns (statusCodes: seq<StatusCode>)
    ensures statusCodes == StatusesFor(code)
  {
    if code == "all" {
      return [Unknown, Deployed, Deleted, Deleting, Failed, PendingInstall, PendingUpgrade, PendingRollback];
    }

    statusCodes := [];
    var codes := Split(code, ',');
    // FILTER_ORDER as successive suffixes: each keyword test below decides the head of one
    ghost var pending := [PendingInstall, PendingUpgrade, PendingRollback];
    ghost var fromSuperseded := [Superseded] + pending;
    ghost var fromFailed := [Failed] + fromSuperseded;
    ghost var fromDeleting := [Deleting] + fromFailed;
    ghost var fromDeleted := [Deleted] + fromDeleting;
    assert FILTER_ORDER == [Deployed] + fromDeleted;

    var found := Contains(codes, "deployed");
    SelectStep(statusCodes, Deployed, fromDeleted, codes);
    if found {
      statusCodes := statusCodes + [Deployed];
    }

    found := Contains(codes, "deleted");
    SelectStep(statusCodes, Deleted, fromDeleting, codes);
    if found {
      statusCodes := statusCodes + [Deleted];
    }

    found := Contains(codes, "deleting");
    SelectStep(statusCodes, Deleting, fromFailed, codes);
    if found {
      statusCodes := statusCodes + [Deleting];
    }

    found := Contains(codes, "failed");
    SelectStep(statusCodes, Failed, fromSuperseded, codes);
    if found {
      statusCodes := statusCodes + [Failed];
    }

    found := Contains(codes, "superseded");
    SelectStep(statusCodes, Superseded, pending, codes);
    if found {
      statusCodes := statusCodes + [Superseded];
    }

    found := Contains(codes, "pending");
    SelectPending(statusCodes, codes);
    if found {
      statusCodes := statusCodes + [PendingInstall, PendingUpgrade, PendingRollback];
    }
  }

  /**
   * The list options a request's query parameters choose; `query` gives
   * each parameter's value, "" when it is absent.
   */
  method ListOptionsFor(query: string -> string) returns (opts: ListOptions)
    ensures opts.sortBy == LastReleased <==> query("sort_by") == "last_released"
    ensures opts.sortOrder == Desc <==> query("sort_ord") == "desc"
    ensures Atoi(query("limit")).Some? ==> opts.limit == Atoi(query("limit")).value
    ensures Atoi(query("limit")).None? ==> opts.limit == DEFAULT_LIMIT
    ensures query("status") == "" ==> opts.statusCodes == [Deployed, Failed]
    ensures query("status") != "" ==> opts.statusCodes == StatusesFor(query("status"))
    ensures opts.offset == query("offset")
    ensures opts.filter == query("filter")
    ensures opts.namespace == query("namespace")
  {
    var sortBy := Name;
    if query("sort_by") == "last_released" {
      sortBy := LastReleased;
    }

    var sortOrder := Asc;
    if query("sort_ord") == "desc" {
      sortOrder := Desc;
    }

    var limit := DEFAULT_LIMIT;
    var parsed := Atoi(query("limit"));
    if parsed.Some? {
      limit := parsed.value;
    }

    var statusCodes := DEFAULT_STATUSES;
    if query("status") != "" {
      statusCodes := ReleaseStatusCodes(query("status"));
    }

    opts := ListOptions(sortBy, sortOrder, limit, query("offset"), query("filter"),
                        statusCodes, query("namespace"));
  }

  lemma {:induction false} SelectMembers(cs: seq<StatusCode>, segments: seq<string>, c: StatusCode)
    ensures c in Select(cs, segments) <==> c in cs && Selected(segments, c)
  {
    if cs != [] {
      SelectMembers(cs[1..], segments, c);
      assert c in cs <==> c == cs[0] || c in cs[1..];
    }
  }

  lemma {:induction false} SelectSubsequence(cs: seq<StatusCode>, segments: seq<string>)
    ensures IsSubsequence(Select(cs, segments), cs)
    ensures |Select(cs, segments)| <= |cs|
  {
    if cs != [] {
      SelectSubsequence(cs[1..], segments);
      var r := Select(cs, segments);
      var tail := Select(cs[1..], segments);
      if Selected(segments, cs[0]) {
        assert r == [cs[0]] + tail && r[0] == cs[0] && r[1..] == tail;
        assert IsSubsequence(r[1..], cs[1..]);
      } else {
        assert r == tail;
        assert IsSubsequence(r, cs[1..]);
      }
    }
  }

  lemma {:induction false} SelectDistinct(cs: seq<StatusCode>, segments: seq<string>)
    requires Distinct(cs)
    ensures Distinct(Select(cs, segments))
  {
    if cs != [] {
      SelectDistinct(cs[1..], segments);
      var tail := Select(cs[1..], segments);
      if Selected(segments, cs[0]) {
        SelectMembers(cs[1..], segments, cs[0]);
        assert cs[0] !in cs[1..];
        var r := [cs[0]] + tail;
        forall i, j | 0 <= i < j < |r| ensures r[i] != r[j] {
          if i > 0 {
            assert r[i] == tail[i - 1] && r[j] == tail[j - 1];
          } else {
            assert r[j] in tail;
          }
        }
      }
    }
  }

  /** Two segment lists that select the same codes give the same selection. */
  lemma {:induction false} SelectSameSelection(cs: seq<StatusCode>, s1: seq<string>, s2: seq<string>)
    requires forall c :: Selected(s1, c) == Selected(s2, c)
    ensures Select(cs, s1) == Select(cs, s2)
  {
    if cs != [] {
      SelectSameSelection(cs[1..], s1, s2);
      assert Selected(s1, cs[0]) == Selected(s2, cs[0]);
    }
  }

  /**
   * Apart from "all", a status code is listed exactly when its keyword is
   * one of the comma-separated segments: "pending" brings in all three
   * pending codes, and Unknown is never listed.
   */
  lemma StatusesMembers(code: string, c: StatusCode)
    requires code != "all"
    ensures c in StatusesFor(code) <==> Keyword(c).Some? && Keyword(c).value in Split(code, ',')
  {
    SelectMembers(FILTER_ORDER, Split(code, ','), c);
    assert c != Unknown ==> c in FILTER_ORDER;
  }

  lemma FilterOrderDistinct()
    ensures Distinct(FILTER_ORDER)
  {
  }

  /**
   * Apart from "all", the codes come in the fixed report order, each at
   * most once, so there are at most eight of them, however often a
   * keyword repeats.
   */
  lemma StatusesOrdered(code: string)
    requires code != "all"
    ensures IsSubsequence(StatusesFor(code), FILTER_ORDER)
    ensures Distinct(StatusesFor(code))
    ensures |StatusesFor(code)| <= 8
  {
    var segs := Split(code, ',');
    SelectSubsequence(FILTER_ORDER, segs);
    FilterOrderDistinct();
    SelectDistinct(FILTER_ORDER, segs);
  }

  /** Apart from "all", a parameter with no recognised segment selects nothing. */
  lemma StatusesNoneRecognised(code: string)
    requires code != "all"
    requires forall c :: Keyword(c).Some? ==> Keyword(c).value !in Split(code, ',')
    ensures StatusesFor(code) == []
  {
    if StatusesFor(code) != [] {
      StatusesMembers(code, StatusesFor(code)[0]);
    }
  }

  /** The three pending codes are listed together or not at all. */
  lemma StatusesPendingTogether(code: string)
    ensures PendingInstall in StatusesFor(code) <==> PendingUpgrade in StatusesFor(code)
    ensures PendingUpgrade in StatusesFor(code) <==> PendingRollback in StatusesFor(code)
  {
    if code != "all" {
      StatusesMembers(code, PendingInstall);
      StatusesMembers(code, PendingUpgrade);
      StatusesMembers(code, PendingRollback);
    }
  }

  /**
   * Only the set of segments matters: reordering or repeating them gives
   * the same codes, provided neither parameter is the whole word "all".
   */
  lemma StatusesIgnoreSegmentOrder(segs1: seq<string>, segs2: seq<string>)
    requires |segs1| >= 1 && |segs2| >= 1
    requires forall i :: 0 <= i < |segs1| ==> ',' !in segs1[i]
    requires forall i :: 0 <= i < |segs2| ==> ',' !in segs2[i]
    requires forall t :: t in segs1 <==> t in segs2
    requires Join(segs1, ',') != "all" && Join(segs2, ',') != "all"
    ensures StatusesFor(Join(segs1, ',')) == StatusesFor(Join(segs2, ','))
  {
    SplitJoin(segs1, ',');
    SplitJoin(segs2, ',');
    SelectSameSelection(FILTER_ORDER, segs1, segs2);
  }

  /** `codes` when `keyword` is one of `segments`, else nothing. */
  function Pick(keyword: string, segments: seq<string>, codes: seq<StatusCode>): seq<StatusCode> {
    if keyword in segments then codes else []
  }

  /** `Select` over FILTER_ORDER as six keyword tests, the last one for all three pending codes. */
  lemma SelectByKeyword(segments: seq<string>)
    ensures Select(FILTER_ORDER, segments) ==
      Pick("deployed", segments, [Deployed]) + (Pick("deleted", segments, [Deleted]) +
      (Pick("deleting", segments, [Deleting]) + (Pick("failed", segments, [Failed]) +
      (Pick("superseded", segments, [Superseded]) +
       Pick("pending", segments, [PendingInstall, PendingUpgrade, PendingRollback])))))
  {
    var pending := [PendingInstall, PendingUpgrade, PendingRollback];
    var fromSuperseded := [Superseded] + pending;
    var fromFailed := [Failed] + fromSuperseded;
    var fromDeleting := [Deleting] + fromFailed;
    var fromDeleted := [Deleted] + fromDeleting;
    assert FILTER_ORDER == [Deployed] + fromDeleted;
    assert Select(pending, segments) == Pick("pending", segments, pending) by {
      SelectPending([], segments);
      assert [] + Select(pending, segments) == Select(pending, segments);
    }
    assert Select(fromSuperseded, segments)
        == Pick("superseded", segments, [Superseded]) + Select(pending, segments) by {
      SelectCons(Superseded, pending, segments);
    }
    assert Select(fromFailed, segments)
        == Pick("failed", segments, [Failed]) + Select(fromSuperseded, segments) by {
      SelectCons(Failed, fromSuperseded, segments);
    }
    assert Select(fromDeleting, segments)
        == Pick("deleting", segments, [Deleting]) + Select(fromFailed, segments) by {
      SelectCons(Deleting, fromFailed, segments);
    }
    assert Select(fromDeleted, segments)
        == Pick("deleted", segments, [Deleted]) + Select(fromDeleting, segments) by {
      SelectCons(Deleted, fromDeleting, segments);
    }
    SelectCons(Deployed, fromDeleted, segments);
  }

  /**
   * Any parameter that splits into "all" and "failed" lists only Failed:
   * it is not the whole word "all", which splits into the one segment "all".
   */
  lemma AllFailedSegments(code: string)
    requires Split(code, ',') == ["all", "failed"]
    ensures StatusesFor(code) == [Failed]
  {
    assert code != "all" by { SplitJoin(["all"], ','); }
    SelectByKeyword(Split(code, ','));
  }

  /** Any parameter whose segments differ from the keywords in case or spacing selects nothing. */
  lemma MismatchedSegments(code: string)
    requires Split(code, ',') == ["FAILED", " deployed", "Pending "]
    ensures StatusesFor(code) == []
  {
    assert code != "all" by { SplitJoin(["all"], ','); }
    forall c | Keyword(c).Some? ensures Keyword(c).value !in Split(code, ',') {
    }
    StatusesNoneRecognised(code);
  }

  /** Any parameter that splits into "pending", "deployed", "pending" lists four codes. */
  lemma RepeatedPendingSegments(code: string)
    requires Split(code, ',') == ["pending", "deployed", "pending"]
    ensures StatusesFor(code) == [Deployed, PendingInstall, PendingUpgrade, PendingRollback]
  {
    assert code != "all" by { SplitJoin(["all"], ','); }
    SelectByKeyword(Split(code, ','));
  }

  /**
   * "all" is recognised only as the whole parameter: as one of several
   * segments it selects nothing, so "all,failed" lists only Failed.
   */
  lemma StatusesAllOnlyWhole()
    ensures StatusesFor("all,failed") == [Failed]
  {
    var segments := ["all", "failed"];
    assert Join(segments, ',') == "all,failed";
    SplitJoin(segments, ',');
    AllFailedSegments("all,failed");
  }

  /** Segments are matched exactly, without case folding or trimming. */
  lemma StatusesExactMatch()
    ensures StatusesFor("FAILED, deployed,Pending ") == []
  {
    var segments := ["FAILED", " deployed", "Pending "];
    assert Join(segments, ',') == "FAILED, deployed,Pending ";
    SplitJoin(segments, ',');
    MismatchedSegments("FAILED, deployed,Pending ");
  }

  /** A repeated keyword is checked once, and codes follow the fixed order, not the input's. */
  lemma StatusesRepeatedKeyword()
    ensures StatusesFor("pending,deployed,pending")
         == [Deployed, PendingInstall, PendingUpgrade, PendingRollback]
  {
    var segments := ["pending", "deployed", "pending"];
    assert Join(segments, ',') == "pending,deployed,pending";
    SplitJoin(segments, ',');
    RepeatedPendingSegments("pending,deployed,pending");
  }
}
