/**
 * The two read views of the `history` table: `/report` lists the newest ten
 * rows of a chat, oldest first and numbered from 1, each with a link to the
 * message it answers; `/sum` totals the amounts of a chat per user name,
 * largest total first.
 */
module Reports {
  import opened Options
  import opened Decimals
  import opened Digits
  import opened Ledger

  /** What a view answers: the "no data" reply, or its numbered lines. */
  datatype Listing<T> = NoData | Lines(lines: seq<T>)

  // ---------------------------------------------------------------------
  // Rows of one chat
  // ---------------------------------------------------------------------

  /** `WHERE chat_id = chat`, keeping the table order. */
  function ChatRows(rows: seq<Row>, chat: int): (r: seq<Row>)
    ensures |r| <= |rows|
    ensures forall x :: x in r <==> x in rows && x.chatId == chat
  {
    if rows == [] then []
    else
      var earlier := ChatRows(rows[..|rows| - 1], chat);
      var last := rows[|rows| - 1];
      assert rows == rows[..|rows| - 1] + [last];
      if last.chatId == chat then earlier + [last] else earlier
  }

  /** A chat has no selected rows exactly when no row of the table belongs to it. */
  lemma ChatRowsEmpty(rows: seq<Row>, chat: int)
    ensures ChatRows(rows, chat) == [] <==> forall i :: 0 <= i < |rows| ==> rows[i].chatId != chat
  {
    if ChatRows(rows, chat) != [] {
      assert ChatRows(rows, chat)[0] in ChatRows(rows, chat);
    }
  }

  /** Selecting one chat keeps the ids in increasing order. */
  lemma {:induction false} ChatRowsIncreasing(rows: seq<Row>, chat: int)
    requires IdsIncreasing(rows)
    ensures IdsIncreasing(ChatRows(rows, chat))
  {
    if rows != [] {
      var front := rows[..|rows| - 1];
      var last := rows[|rows| - 1];
      ChatRowsIncreasing(front, chat);
      var earlier := ChatRows(front, chat);
      if last.chatId == chat {
        forall i | 0 <= i < |earlier| ensures earlier[i].id < last.id {
          assert earlier[i] in front;
          var j :| 0 <= j < |front| && front[j] == earlier[i];
          assert rows[j] == earlier[i];
        }
      }
    }
  }

  /** A row appended for one chat leaves every other chat's selection unchanged. */
  lemma ChatRowsAppend(rows: seq<Row>, row: Row, chat: int)
    ensures ChatRows(rows + [row], chat) == if row.chatId == chat then ChatRows(rows, chat) + [row]
                                           else ChatRows(rows, chat)
  {
    assert (rows + [row])[..|rows + [row]| - 1] == rows;
  }

  // ---------------------------------------------------------------------
  // /report
  // ---------------------------------------------------------------------

  const ReportLimit := 10

  function Reverse(s: seq<Row>): (r: seq<Row>)
    ensures |r| == |s|
    ensures forall i :: 0 <= i < |s| ==> r[i] == s[|s| - 1 - i]
  {
    if s == [] then [] else [s[|s| - 1]] + Reverse(s[..|s| - 1])
  }

  /** The newest `ReportLimit` rows of `c`, newest first. */
  function Newest(c: seq<Row>): (q: seq<Row>)
    ensures |q| == if |c| <= ReportLimit then |c| else ReportLimit
    ensures forall k :: 0 <= k < |q| ==> q[k] == c[|c| - 1 - k]
  {
    var newestFirst := Reverse(c);
    if |newestFirst| <= ReportLimit then newestFirst else newestFirst[..ReportLimit]
  }

  /**
   * `SELECT ... WHERE chat_id = chat ORDER BY id DESC LIMIT 10`: the rows of
   * the chat, newest first, at most ten of them.
   */
  function QueryLatest(rows: seq<Row>, chat: int): (r: seq<Row>)
    ensures |r| <= ReportLimit
    ensures forall k :: 0 <= k < |r| ==> r[k] in rows && r[k].chatId == chat
  {
    Newest(ChatRows(rows, chat))
  }

  lemma NewestDecreasing(c: seq<Row>)
    requires IdsIncreasing(c)
    ensures forall k :: 0 < k < |Newest(c)| ==> Newest(c)[k].id < Newest(c)[k - 1].id
  {
    var q := Newest(c);
    forall k | 0 < k < |q| ensures q[k].id < q[k - 1].id {
      assert q[k] == c[|c| - 1 - k] && q[k - 1] == c[|c| - k];
    }
  }

  lemma NewestBelow(c: seq<Row>, x: Row)
    requires IdsIncreasing(c)
    requires x in c && x !in Newest(c)
    ensures forall k :: 0 <= k < |Newest(c)| ==> x.id < Newest(c)[k].id
  {
    var q := Newest(c);
    var j :| 0 <= j < |c| && c[j] == x;
    forall i | |c| - |q| <= i < |c| ensures c[i] != x {
      assert c[i] == q[|c| - 1 - i];
    }
    forall k | 0 <= k < |q| ensures x.id < q[k].id {
      assert q[k] == c[|c| - 1 - k];
    }
  }

  /**
   * The query returns the ten highest-id rows of the chat (all of them when
   * there are fewer), in decreasing id order: every row of the chat it leaves
   * out has a smaller id than every row it returns.
   */
  lemma LatestAreNewest(rows: seq<Row>, chat: int)
    requires IdsIncreasing(rows)
    ensures var q, c := QueryLatest(rows, chat), ChatRows(rows, chat);
            |q| == (if |c| <= ReportLimit then |c| else ReportLimit) &&
            (forall k :: 0 <= k < |q| ==> q[k] in rows && q[k].chatId == chat) &&
            (forall k :: 0 < k < |q| ==> q[k].id < q[k - 1].id) &&
            (forall x :: x in rows && x.chatId == chat && x !in q ==> forall k :: 0 <= k < |q| ==> x.id < q[k].id)
  {
    var c := ChatRows(rows, chat);
    var q := Newest(c);
    ChatRowsIncreasing(rows, chat);
    NewestDecreasing(c);
    forall k | 0 <= k < |q| ensures q[k] in rows && q[k].chatId == chat {
      assert c[|c| - 1 - k] in c;
    }
    forall x | x in rows && x.chatId == chat && x !in q
      ensures forall k :: 0 <= k < |q| ==> x.id < q[k].id
    {
      NewestBelow(c, x);
    }
  }

  /**
   * Shown oldest first, the report is exactly the last `ReportLimit` rows of
   * the chat (all of them when there are fewer), in table order, and so in
   * increasing id order.
   */
  lemma ReportShowsLastRows(rows: seq<Row>, chat: int)
    requires IdsIncreasing(rows)
    ensures var c := ChatRows(rows, chat);
            var shown := Reverse(QueryLatest(rows, chat));
            shown == c[|c| - |shown|..] && IdsIncreasing(shown)
  {
    ChatRowsIncreasing(rows, chat);
    NewestReversed(ChatRows(rows, chat));
  }

  /** The newest rows, turned back into table order, are the last rows of the list. */
  lemma NewestReversed(c: seq<Row>)
    requires IdsIncreasing(c)
    ensures var shown := Reverse(Newest(c));
            shown == c[|c| - |shown|..] && IdsIncreasing(shown)
  {
    var q := Newest(c);
    var shown := Reverse(q);
    assert shown == c[|c| - |shown|..] by {
      forall k | 0 <= k < |shown| ensures shown[k] == c[|c| - |shown| + k] {
        assert shown[k] == q[|q| - 1 - k];
      }
    }
    forall i, j | 0 <= i < j < |shown| ensures shown[i].id < shown[j].id {
      assert shown[i] == c[|c| - |shown| + i] && shown[j] == c[|c| - |shown| + j];
    }
  }

  /** Appending a row for a chat makes it the newest row of that chat's report. */
  lemma LatestAfterAppend(rows: seq<Row>, row: Row)
    ensures QueryLatest(rows + [row], row.chatId) != []
    ensures QueryLatest(rows + [row], row.chatId)[0] == row
    ensures forall chat :: chat != row.chatId ==> QueryLatest(rows + [row], chat) == QueryLatest(rows, chat)
  {
    ChatRowsAppend(rows, row, row.chatId);
    forall chat | chat != row.chatId
      ensures QueryLatest(rows + [row], chat) == QueryLatest(rows, chat)
    {
      ChatRowsAppend(rows, row, chat);
    }
  }

  /** Python's `s[k:]`: empty when `s` is shorter than `k`. */
  function SliceFrom(s: string, k: nat): (r: string)
    ensures |s| <= k ==> r == []
    ensures k < |s| ==> |r| == |s| - k && forall i :: 0 <= i < |r| ==> r[i] == s[k + i]
  {
    if k <= |s| then s[k..] else []
  }

  const LinkPrefix := "https://t.me/c/"

  /**
   * The link of a report line: a reply id that is present and non-zero gives
   * the link prefix, the chat id's text from its fifth character on, `/` and
   * the reply id; a missing or zero id (falsy in Python) gives `-`.
   */
  function Link(chatId: int, replyId: Option<int>): (r: string)
    ensures r == "-" || (|r| > |LinkPrefix| && r[..|LinkPrefix|] == LinkPrefix)
  {
    if replyId.Some? && replyId.value != 0 then
      LinkPrefix + SliceFrom(IntToString(chatId), 4) + "/" + IntToString(replyId.value)
    else "-"
  }

  /** The line shows `-` exactly when there is no reply id or it is zero. */
  lemma LinkDash(chatId: int, replyId: Option<int>)
    ensures Link(chatId, replyId) == "-" <==> replyId.None? || replyId.value == 0
  {
    if replyId.Some? && replyId.value != 0 {
      assert Link(chatId, replyId)[0] == 'h';
    }
  }

  /**
   * For a supergroup, whose chat id is written `-100` followed by its internal
   * id, the link names exactly that internal id and the replied-to message.
   */
  lemma LinkForSupergroup(internal: string, reply: nat)
    requires Canonical(internal) && internal[0] != '0' && reply != 0
    ensures AllDigits("100" + internal)
    ensures Link(-(DigitsValue("100" + internal) as int), Some(reply)) == LinkPrefix + internal + "/" + NatDigits(reply)
  {
    var full := "100" + internal;
    SupergroupCanonical(internal);
    NegativeToString(full);
    SupergroupSlice(internal);
    var chatId := -(DigitsValue(full) as int);
    assert SliceFrom(IntToString(chatId), 4) == internal;
    LinkParts(chatId, reply);
  }

  /** A non-zero reply id links to the prefix, the sliced chat id, `/` and the reply id's digits. */
  lemma LinkParts(chatId: int, reply: nat)
    requires reply != 0
    ensures Link(chatId, Some(reply)) == LinkPrefix + SliceFrom(IntToString(chatId), 4) + "/" + NatDigits(reply)
  {
  }

  /** Python's `str` of minus a canonical digit string's value is `-` and those digits. */
  lemma NegativeToString(full: string)
    requires Canonical(full) && full[0] != '0'
    ensures IntToString(-(DigitsValue(full) as int)) == "-" + full
  {
    CanonicalRoundTrip(full);
    LeadingDigitPositive(full);
  }

  lemma SupergroupCanonical(internal: string)
    requires Canonical(internal)
    ensures Canonical("100" + internal)
  {
    var full := "100" + internal;
    forall i | 0 <= i < |full| ensures IsDigit(full[i]) {
      if i >= 3 { assert full[i] == internal[i - 3]; }
    }
  }

  lemma SupergroupSlice(internal: string)
    ensures SliceFrom("-" + ("100" + internal), 4) == internal
  {
    assert ("-" + ("100" + internal))[4..] == internal;
  }

  /** One line of `/report`: its number, time, amount, name and link. */
  datatype ReportLine = ReportLine(index: nat, createdAt: int, amount: Decimal, userName: string, link: string)

  /** The report query is empty exactly when no row belongs to the chat. */
  lemma LatestNone(rows: seq<Row>, chat: int)
    ensures QueryLatest(rows, chat) == [] <==> forall i :: 0 <= i < |rows| ==> rows[i].chatId != chat
  {
    ChatRowsEmpty(rows, chat);
  }

  /** The line numbered `index` that shows `row`. */
  function LineOf(index: nat, chatId: int, row: Row): (l: ReportLine)
    ensures l.index == index && l.createdAt == row.createdAt && l.amount == row.amount
    ensures l.userName == row.userName && l.link == Link(chatId, row.replyId)
  {
    ReportLine(index, row.createdAt, row.amount, row.userName, Link(chatId, row.replyId))
  }

  /**
   * `/report`: "no data" when the chat has no rows; otherwise the queried
   * rows in reverse (so oldest first), numbered from 1, each with its link.
   */
  method Report(rows: seq<Row>, chatId: int) returns (r: Listing<ReportLine>)
    ensures r.NoData? <==> forall i :: 0 <= i < |rows| ==> rows[i].chatId != chatId
    ensures r.Lines? ==>
              var q := QueryLatest(rows, chatId);
              |r.lines| == |q| &&
              forall k :: 0 <= k < |q| ==> r.lines[k] == LineOf(k + 1, chatId, q[|q| - 1 - k])
  {
    var fetched := QueryLatest(rows, chatId);
    LatestNone(rows, chatId);
    if fetched == [] {
      return NoData;
    }
    var lines := NumberRows(Reverse(fetched), chatId);
    return Lines(lines);
  }

  /** `enumerate(..., 1)` over rows already put oldest first: one numbered line each, in order. */
  method NumberRows(ordered: seq<Row>, chatId: int) returns (lines: seq<ReportLine>)
    ensures |lines| == |ordered|
    ensures forall k :: 0 <= k < |ordered| ==> lines[k] == LineOf(k + 1, chatId, ordered[k])
  {
    lines := [];
    var i := 0;
    while i < |ordered|
      invariant 0 <= i <= |ordered|
      invariant |lines| == i
      invariant forall k :: 0 <= k < i ==> lines[k] == LineOf(k + 1, chatId, ordered[k])
    {
      lines := lines + [LineOf(i + 1, chatId, ordered[i])];
      i := i + 1;
    }
  }

  // ---------------------------------------------------------------------
  // /sum
  // ---------------------------------------------------------------------

  /** One group of `GROUP BY user_name`: a name and its `SUM(amount)`. */
  datatype UserTotal = UserTotal(name: string, total: Decimal)

  /** Every amount of `rs`, in table order. */
  function Amounts(rs: seq<Row>): (r: seq<Decimal>)
    ensures |r| == |rs|
  {
    if rs == [] then [] else Amounts(rs[..|rs| - 1]) + [rs[|rs| - 1].amount]
  }

  /** The amounts of the rows of `rs` recorded for `name`, in table order. */
  function AmountsOf(rs: seq<Row>, name: string): (r: seq<Decimal>)
    ensures |r| <= |rs|
  {
    if rs == [] then []
    else
      var earlier := AmountsOf(rs[..|rs| - 1], name);
      var last := rs[|rs| - 1];
      if last.userName == name then earlier + [last.amount] else earlier
  }

  /** A name that no row carries has nothing to add up. */
  lemma {:induction false} AmountsOfAbsent(rs: seq<Row>, name: string)
    requires forall x :: x in rs ==> x.userName != name
    ensures AmountsOf(rs, name) == []
  {
    if rs != [] {
      assert forall x :: x in rs[..|rs| - 1] ==> x in rs;
      AmountsOfAbsent(rs[..|rs| - 1], name);
    }
  }

  lemma AmountsOfAppend(rs: seq<Row>, x: Row, name: string)
    ensures AmountsOf(rs + [x], name) == if x.userName == name then AmountsOf(rs, name) + [x.amount]
                                         else AmountsOf(rs, name)
  {
    assert (rs + [x])[..|rs + [x]| - 1] == rs;
  }

  predicate Distinct(ns: seq<string>)
  {
    forall i, j :: 0 <= i < j < |ns| ==> ns[i] != ns[j]
  }

  /** The distinct user names of `rs`, in the order they first appear. */
  function Names(rs: seq<Row>): (ns: seq<string>)
    ensures Distinct(ns)
    ensures forall n :: n in ns <==> exists x :: x in rs && x.userName == n
  {
    if rs == [] then []
    else
      var front := rs[..|rs| - 1];
      var last := rs[|rs| - 1];
      var earlier := Names(front);
      assert rs == front + [last];
      if last.userName in earlier then earlier else earlier + [last.userName]
  }

  /** One group per name of `ns`, each totalling the amounts recorded for it. */
  function GroupTotalsOver(ns: seq<string>, rs: seq<Row>): (r: seq<UserTotal>)
    ensures |r| == |ns|
    ensures forall i :: 0 <= i < |ns| ==> r[i].name == ns[i]
    ensures forall i :: 0 <= i < |ns| ==> Value(r[i].total) == RealSum(AmountsOf(rs, ns[i]))
  {
    if ns == [] then [] else [UserTotal(ns[0], Sum(AmountsOf(rs, ns[0])))] + GroupTotalsOver(ns[1..], rs)
  }

  lemma {:induction false} GroupTotalsOverAppend(ns: seq<string>, n: string, rs: seq<Row>)
    ensures GroupTotalsOver(ns + [n], rs) == GroupTotalsOver(ns, rs) + [UserTotal(n, Sum(AmountsOf(rs, n)))]
  {
    if ns != [] {
      assert (ns + [n])[1..] == ns[1..] + [n];
      GroupTotalsOverAppend(ns[1..], n, rs);
    }
  }

  /** `GROUP BY user_name` with `SUM(amount)`, groups in order of first appearance. */
  function GroupTotals(rs: seq<Row>): (r: seq<UserTotal>)
    ensures |r| == |Names(rs)|
    ensures forall i :: 0 <= i < |r| ==> r[i].name in Names(rs) && Value(r[i].total) == RealSum(AmountsOf(rs, r[i].name))
  {
    GroupTotalsOver(Names(rs), rs)
  }

  /** The sum of the totals of a list of groups. */
  function GrandTotal(s: seq<UserTotal>): real
  {
    if s == [] then 0.0 else Value(s[0].total) + GrandTotal(s[1..])
  }

  lemma {:induction false} GrandTotalAppend(s: seq<UserTotal>, t: UserTotal)
    ensures GrandTotal(s + [t]) == GrandTotal(s) + Value(t.total)
  {
    if s != [] {
      assert (s + [t])[1..] == s[1..] + [t];
      GrandTotalAppend(s[1..], t);
    }
  }

  /**
   * One more row for a name of `ns` raises the grand total over `ns` by that
   * row's amount; a row for any other name leaves it as it was.
   */
  lemma {:induction false} GrandTotalOneMore(ns: seq<string>, rs: seq<Row>, x: Row)
    requires Distinct(ns)
    ensures GrandTotal(GroupTotalsOver(ns, rs + [x])) ==
            GrandTotal(GroupTotalsOver(ns, rs)) + (if x.userName in ns then Value(x.amount) else 0.0)
  {
    if ns != [] {
      assert Distinct(ns[1..]) by {
        forall i, j | 0 <= i < j < |ns[1..]| ensures ns[1..][i] != ns[1..][j] {
          assert ns[1..][i] == ns[i + 1] && ns[1..][j] == ns[j + 1];
        }
      }
      assert x.userName in ns[1..] <==> x.userName in ns && x.userName != ns[0] by {
        if x.userName in ns[1..] {
          var j :| 0 <= j < |ns[1..]| && ns[1..][j] == x.userName;
          assert ns[j + 1] == x.userName;
        }
        if x.userName in ns && x.userName != ns[0] {
          var j :| 0 <= j < |ns| && ns[j] == x.userName;
          assert ns[1..][j - 1] == x.userName;
        }
      }
      GrandTotalOneMore(ns[1..], rs, x);
      AmountsOfAppend(rs, x, ns[0]);
      if x.userName == ns[0] {
        RealSumAppend(AmountsOf(rs, ns[0]), [x.amount]);
        assert RealSum([x.amount]) == Value(x.amount) by {
          assert [x.amount][..0] == [];
        }
      }
    }
  }

  /** A row under a new name adds a group holding just that row's amount. */
  lemma NewNameTotal(front: seq<Row>, x: Row)
    requires x.userName !in Names(front)
    ensures GrandTotal(GroupTotalsOver(Names(front) + [x.userName], front + [x])) ==
            GrandTotal(GroupTotalsOver(Names(front), front + [x])) + Value(x.amount)
  {
    var ns, rs := Names(front), front + [x];
    GroupTotalsOverAppend(ns, x.userName, rs);
    GrandTotalAppend(GroupTotalsOver(ns, rs), UserTotal(x.userName, Sum(AmountsOf(rs, x.userName))));
    AmountsOfAbsent(front, x.userName);
    AmountsOfAppend(front, x, x.userName);
    assert AmountsOf(rs, x.userName) == [x.amount];
    assert RealSum([x.amount]) == Value(x.amount) by {
      assert [x.amount][..0] == [];
    }
  }

  /**
   * Grouping loses nothing: the per-user totals add up to the total of every
   * amount of the rows.
   */
  lemma {:induction false} GroupTotalsConserve(rs: seq<Row>)
    ensures GrandTotal(GroupTotals(rs)) == RealSum(Amounts(rs))
  {
    if rs != [] {
      var front := rs[..|rs| - 1];
      var x := rs[|rs| - 1];
      assert rs == front + [x];
      GroupTotalsConserve(front);
      var ns := Names(front);
      GrandTotalOneMore(ns, front, x);
      if x.userName !in ns {
        NewNameTotal(front, x);
      }
      assert Amounts(rs) == Amounts(front) + [x.amount];
    }
  }

  /** Largest total first: `ORDER BY SUM(amount) DESC`. */
  predicate NonIncreasing(s: seq<UserTotal>)
  {
    forall i, j :: 0 <= i < j < |s| ==> Value(s[i].total) >= Value(s[j].total)
  }

  /** Puts `t` before the first group whose total does not exceed its own. */
  function InsertByTotal(t: UserTotal, s: seq<UserTotal>): (r: seq<UserTotal>)
    requires NonIncreasing(s)
    ensures NonIncreasing(r)
    ensures multiset(r) == multiset(s) + multiset{t}
    ensures r[0] == t || (s != [] && r[0] == s[0])
    ensures GrandTotal(r) == Value(t.total) + GrandTotal(s)
  {
    if s == [] then [t]
    else if Value(t.total) >= Value(s[0].total) then
      ConsNonIncreasing(t, s);
      ConsGrandTotal(t, s);
      [t] + s
    else
      var rest := InsertByTotal(t, s[1..]);
      ConsNonIncreasing(s[0], rest);
      ConsGrandTotal(s[0], rest);
      ConsGrandTotal(s[0], s[1..]);
      ConsMultiset(s, t, rest);
      [s[0]] + rest
  }

  lemma ConsNonIncreasing(h: UserTotal, r: seq<UserTotal>)
    requires NonIncreasing(r)
    requires r != [] ==> Value(h.total) >= Value(r[0].total)
    ensures NonIncreasing([h] + r)
  {
    var c := [h] + r;
    forall i, j | 0 <= i < j < |c| ensures Value(c[i].total) >= Value(c[j].total) {
      if i == 0 {
        assert c[j] == r[j - 1];
      } else {
        assert c[i] == r[i - 1] && c[j] == r[j - 1];
      }
    }
  }

  lemma ConsGrandTotal(h: UserTotal, r: seq<UserTotal>)
    ensures GrandTotal([h] + r) == Value(h.total) + GrandTotal(r)
  {
    assert ([h] + r)[1..] == r;
  }

  lemma ConsMultiset(s: seq<UserTotal>, t: UserTotal, rest: seq<UserTotal>)
    requires s != []
    requires multiset(rest) == multiset(s[1..]) + multiset{t}
    ensures multiset([s[0]] + rest) == multiset(s) + multiset{t}
  {
    assert s == [s[0]] + s[1..];
  }

  /** The groups ordered by total, largest first, by insertion. */
  function SortByTotal(s: seq<UserTotal>): (r: seq<UserTotal>)
    ensures NonIncreasing(r)
    ensures multiset(r) == multiset(s)
    ensures GrandTotal(r) == GrandTotal(s)
  {
    if s == [] then []
    else
      assert s == [s[0]] + s[1..];
      InsertByTotal(s[0], SortByTotal(s[1..]))
  }

  predicate DistinctNames(s: seq<UserTotal>)
  {
    forall i, j :: 0 <= i < j < |s| ==> s[i].name != s[j].name
  }

  lemma {:induction false} InsertDistinct(t: UserTotal, s: seq<UserTotal>)
    requires NonIncreasing(s) && DistinctNames(s)
    requires forall x :: x in s ==> x.name != t.name
    ensures DistinctNames(InsertByTotal(t, s))
  {
    if s != [] && Value(t.total) < Value(s[0].total) {
      var rest := InsertByTotal(t, s[1..]);
      TailDistinct(s);
      InsertDistinct(t, s[1..]);
      forall x | x in rest ensures x.name != s[0].name {
        HeadNameUnique(s, t, rest, x);
      }
      ConsDistinct(s[0], rest);
    } else if s != [] {
      ConsDistinct(t, s);
    }
  }

  lemma TailDistinct(s: seq<UserTotal>)
    requires s != [] && DistinctNames(s)
    ensures DistinctNames(s[1..])
    ensures forall x :: x in s[1..] ==> x.name != s[0].name
  {
    forall i, j | 0 <= i < j < |s[1..]| ensures s[1..][i].name != s[1..][j].name {
      assert s[1..][i] == s[i + 1] && s[1..][j] == s[j + 1];
    }
    forall x | x in s[1..] ensures x.name != s[0].name {
      var j :| 0 <= j < |s[1..]| && s[1..][j] == x;
      assert s[j + 1] == x;
    }
  }

  lemma HeadNameUnique(s: seq<UserTotal>, t: UserTotal, rest: seq<UserTotal>, x: UserTotal)
    requires s != [] && DistinctNames(s) && t.name != s[0].name
    requires multiset(rest) == multiset(s[1..]) + multiset{t}
    requires x in rest
    ensures x.name != s[0].name
  {
    assert x in multiset(rest);
    TailDistinct(s);
  }

  lemma ConsDistinct(h: UserTotal, r: seq<UserTotal>)
    requires DistinctNames(r)
    requires forall x :: x in r ==> x.name != h.name
    ensures DistinctNames([h] + r)
  {
    var c := [h] + r;
    forall i, j | 0 <= i < j < |c| ensures c[i].name != c[j].name {
      assert c[j] == r[j - 1] && c[j] in r;
      if i > 0 { assert c[i] == r[i - 1]; }
    }
  }

  /** Sorting keeps one group per name. */
  lemma {:induction false} SortDistinct(s: seq<UserTotal>)
    requires DistinctNames(s)
    ensures DistinctNames(SortByTotal(s))
  {
    if s != [] {
      TailDistinct(s);
      SortDistinct(s[1..]);
      var sorted := SortByTotal(s[1..]);
      forall x | x in sorted ensures x.name != s[0].name {
        assert x in multiset(sorted);
      }
      InsertDistinct(s[0], sorted);
    }
  }

  /**
   * `SELECT user_name, SUM(amount) ... WHERE chat_id = chat GROUP BY user_name
   * ORDER BY SUM(amount) DESC`.
   */
  function SumQuery(rows: seq<Row>, chat: int): (r: seq<UserTotal>)
    ensures NonIncreasing(r)
    ensures multiset(r) == multiset(GroupTotals(ChatRows(rows, chat)))
  {
    SortByTotal(GroupTotals(ChatRows(rows, chat)))
  }

  /** The names of a list of groups. */
  function GroupNames(s: seq<UserTotal>): set<string>
  {
    set x | x in s :: x.name
  }

  /** The user names recorded in a chat. */
  function ChatNames(rows: seq<Row>, chat: int): set<string>
  {
    set y | y in rows && y.chatId == chat :: y.userName
  }

  /**
   * Every amount recorded for `name` in `rs` is among `AmountsOf(rs, name)`,
   * and nothing else is.
   */
  lemma {:induction false} AmountsOfMembers(rs: seq<Row>, name: string)
    ensures forall a :: a in AmountsOf(rs, name) <==> exists x :: x in rs && x.userName == name && x.amount == a
  {
    if rs != [] {
      var front := rs[..|rs| - 1];
      assert rs == front + [rs[|rs| - 1]];
      AmountsOfMembers(front, name);
    }
  }

  /** The positions of the rows recorded under `name` with amount `a`. */
  function RowsWith(rs: seq<Row>, name: string, a: Decimal): set<nat>
  {
    set i: nat | i < |rs| && rs[i].userName == name && rs[i].amount == a
  }

  /**
   * Each amount occurs among `AmountsOf(rs, name)` exactly as many times as
   * there are rows recorded under `name` with that amount: no row is summed
   * twice and none is missed.
   */
  lemma {:induction false} AmountsOfCounts(rs: seq<Row>, name: string)
    ensures forall a :: multiset(AmountsOf(rs, name))[a] == |RowsWith(rs, name, a)|
  {
    if rs != [] {
      var front, x := rs[..|rs| - 1], rs[|rs| - 1];
      assert rs == front + [x];
      AmountsOfCounts(front, name);
      AmountsOfAppend(front, x, name);
      forall a
        ensures multiset(AmountsOf(rs, name))[a] == |RowsWith(rs, name, a)|
      {
        RowsWithAppend(front, x, name, a);
      }
    }
  }

  lemma RowsWithAppend(rs: seq<Row>, x: Row, name: string, a: Decimal)
    ensures |rs| !in RowsWith(rs, name, a)
    ensures RowsWith(rs + [x], name, a) ==
            if x.userName == name && x.amount == a then RowsWith(rs, name, a) + {|rs|} else RowsWith(rs, name, a)
  {
    var ys := rs + [x];
    assert forall i :: 0 <= i < |rs| ==> ys[i] == rs[i];
  }

  /**
   * The sum view has exactly one group per user name recorded in the chat,
   * each holding the exact sum of that user's amounts in the chat, largest
   * total first; together the groups add up to the chat's total.
   */
  lemma SumQueryCorrect(rows: seq<Row>, chat: int)
    ensures var q, c := SumQuery(rows, chat), ChatRows(rows, chat);
            DistinctNames(q) &&
            NonIncreasing(q) &&
            (forall x :: x in q ==> x.total == Sum(AmountsOf(c, x.name))) &&
            GroupNames(q) == ChatNames(rows, chat) &&
            GrandTotal(q) == RealSum(Amounts(c)) &&
            (q == [] <==> c == [])
  {
    var c := ChatRows(rows, chat);
    var g := GroupTotals(c);
    var q := SortByTotal(g);
    GroupTotalsDistinct(c);
    SortDistinct(g);
    GroupTotalsConserve(c);
    SameMembers(q, g);
    GroupsOver(Names(c), c);
    GroupNamesOfChat(rows, chat);
    SumQueryEmpty(rows, chat);
  }

  lemma GroupTotalsDistinct(c: seq<Row>)
    ensures DistinctNames(GroupTotals(c))
  {
    var ns := Names(c);
    var g := GroupTotals(c);
    forall i, j | 0 <= i < j < |g| ensures g[i].name != g[j].name {
      assert g[i].name == ns[i] && g[j].name == ns[j];
    }
  }

  lemma SameMembers(q: seq<UserTotal>, g: seq<UserTotal>)
    requires multiset(q) == multiset(g)
    ensures forall x :: x in q <==> x in g
    ensures GroupNames(q) == GroupNames(g)
  {
    forall x ensures x in q <==> x in g {
      assert x in q <==> x in multiset(q);
      assert x in g <==> x in multiset(g);
    }
  }

  lemma GroupNamesOfChat(rows: seq<Row>, chat: int)
    ensures GroupNames(GroupTotals(ChatRows(rows, chat))) == ChatNames(rows, chat)
  {
    forall n | n in ChatNames(rows, chat) ensures n in GroupNames(GroupTotals(ChatRows(rows, chat))) {
      ChatNameGrouped(rows, chat, n);
    }
    forall n | n in GroupNames(GroupTotals(ChatRows(rows, chat))) ensures n in ChatNames(rows, chat) {
      GroupedNameInChat(rows, chat, n);
    }
  }

  lemma ChatNameGrouped(rows: seq<Row>, chat: int, n: string)
    requires n in ChatNames(rows, chat)
    ensures n in GroupNames(GroupTotals(ChatRows(rows, chat)))
  {
    var c := ChatRows(rows, chat);
    var y :| y in rows && y.chatId == chat && y.userName == n;
    assert y in c;
    assert n in Names(c);
    NameInGroups(Names(c), c, n);
  }

  lemma NameInGroups(ns: seq<string>, rs: seq<Row>, n: string)
    requires n in ns
    ensures n in GroupNames(GroupTotalsOver(ns, rs))
  {
    var g := GroupTotalsOver(ns, rs);
    var i :| 0 <= i < |ns| && ns[i] == n;
    assert g[i].name == n && g[i] in g;
  }

  lemma GroupedNameInChat(rows: seq<Row>, chat: int, n: string)
    requires n in GroupNames(GroupTotals(ChatRows(rows, chat)))
    ensures n in ChatNames(rows, chat)
  {
    var c := ChatRows(rows, chat);
    var ns := Names(c);
    var g := GroupTotals(c);
    var x :| x in g && x.name == n;
    var i :| 0 <= i < |g| && g[i] == x;
    assert ns[i] == n && ns[i] in ns;
    var y :| y in c && y.userName == n;
    assert y in rows && y.chatId == chat;
  }

  /** Every group of `GroupTotalsOver(ns, rs)` carries a name of `ns` and sums that name's amounts. */
  lemma {:induction false} GroupsOver(ns: seq<string>, rs: seq<Row>)
    ensures forall x :: x in GroupTotalsOver(ns, rs) ==> x.name in ns && x.total == Sum(AmountsOf(rs, x.name))
  {
    if ns != [] {
      GroupsOver(ns[1..], rs);
      assert forall n :: n in ns[1..] ==> n in ns;
    }
  }

  /** The sum view is empty exactly when the chat has no rows. */
  lemma SumQueryEmpty(rows: seq<Row>, chat: int)
    ensures SumQuery(rows, chat) == [] <==> ChatRows(rows, chat) == []
  {
    var c := ChatRows(rows, chat);
    var g := GroupTotals(c);
    assert |multiset(SortByTotal(g))| == |g| == |Names(c)|;
    if c != [] {
      assert c[0] in c;
      assert c[0].userName in Names(c);
    }
  }

  /** The sum query is empty exactly when no row belongs to the chat. */
  lemma SumQueryNone(rows: seq<Row>, chat: int)
    ensures SumQuery(rows, chat) == [] <==> forall i :: 0 <= i < |rows| ==> rows[i].chatId != chat
  {
    SumQueryEmpty(rows, chat);
    ChatRowsEmpty(rows, chat);
  }

  /** One line of `/sum`: its number, the user name and the total. */
  datatype SumLine = SumLine(index: nat, userName: string, total: Decimal)

  /**
   * `/sum`: "no data" when the chat has no rows; otherwise one numbered line
   * per group, in the query's order.
   */
  method SumByUser(rows: seq<Row>, chatId: int) returns (r: Listing<SumLine>)
    ensures r.NoData? <==> forall i :: 0 <= i < |rows| ==> rows[i].chatId != chatId
    ensures r.Lines? ==>
              var q := SumQuery(rows, chatId);
              |r.lines| == |q| &&
              forall k :: 0 <= k < |q| ==> r.lines[k] == SumLine(k + 1, q[k].name, q[k].total)
  {
    var fetched := SumQuery(rows, chatId);
    SumQueryNone(rows, chatId);
    if fetched == [] {
      return NoData;
    }
    var lines := NumberTotals(fetched);
    return Lines(lines);
  }

  /** `enumerate(rows, 1)` over the fetched groups: one numbered line each, in order. */
  method NumberTotals(groups: seq<UserTotal>) returns (lines: seq<SumLine>)
    ensures |lines| == |groups|
    ensures forall k :: 0 <= k < |groups| ==> lines[k] == SumLine(k + 1, groups[k].name, groups[k].total)
  {
    lines := [];
    var i := 0;
    while i < |groups|
      invariant 0 <= i <= |groups|
      invariant |lines| == i
      invariant forall k :: 0 <= k < i ==> lines[k] == SumLine(k + 1, groups[k].name, groups[k].total)
    {
      lines := lines + [SumLine(i + 1, groups[i].name, groups[i].total)];
      i := i + 1;
    }
  }
}
