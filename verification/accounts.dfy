/** `update_accounts` (hack_ui/app.py): the balance table, one row per
    account, ordered by descending balance, names translated through the
    participant map. */
module Accounts {
  import opened Participants

  /** One item of the balances object, in its iteration order. */
  datatype Entry = Entry(actor: string, balance: real)

  /** One table row: the translated name and the balance. */
  datatype AccountRow = AccountRow(name: string, balance: real)

  datatype AccountTable = AccountTable(header: seq<string>, body: seq<AccountRow>)

  const Header: seq<string> := ["Name", "Balance"]

  predicate NonIncreasing(s: seq<Entry>) {
    forall i, j | 0 <= i < j < |s| :: s[i].balance >= s[j].balance
  }

  /** The entries whose balance is `b`, in their order in `s`. */
  function WithBalance(s: seq<Entry>, b: real): seq<Entry>
  {
    if s == [] then []
    else (if s[0].balance == b then [s[0]] else []) + WithBalance(s[1..], b)
  }

  /** Puts `e` in front of the first entry whose balance does not exceed its own. */
  function Insert(e: Entry, s: seq<Entry>): (r: seq<Entry>)
    ensures multiset(r) == multiset(s) + multiset{e}
  {
    if s == [] || s[0].balance <= e.balance then [e] + s
    else
      assert s == [s[0]] + s[1..];
      [s[0]] + Insert(e, s[1..])
  }

  lemma {:induction false} InsertKeepsOrder(e: Entry, s: seq<Entry>)
    requires NonIncreasing(s)
    ensures NonIncreasing(Insert(e, s))
    decreases |s|
  {
    if s != [] && s[0].balance > e.balance {
      var tail := Insert(e, s[1..]);
      InsertKeepsOrder(e, s[1..]);
      forall x | x in tail ensures x.balance <= s[0].balance {
        assert x in multiset(tail);
        assert x == e || x in multiset(s[1..]);
      }
    }
  }

  /** `e` goes in front of the entries of its own balance and leaves every
      other balance's entries as they were. */
  lemma {:induction false} InsertWithBalance(e: Entry, s: seq<Entry>, b: real)
    ensures WithBalance(Insert(e, s), b) == if b == e.balance then [e] + WithBalance(s, b) else WithBalance(s, b)
    decreases |s|
  {
    if s == [] || s[0].balance <= e.balance {
      assert ([e] + s)[1..] == s;
    } else {
      var r := [s[0]] + Insert(e, s[1..]);
      assert r[1..] == Insert(e, s[1..]);
      InsertWithBalance(e, s[1..], b);
    }
  }

  /** `sorted(balances.items(), key=lambda x: -x[1])`: a stable sort by
      descending balance. The result is non-increasing, a permutation of the
      input, and entries of equal balance keep their input order. */
  function SortByBalance(s: seq<Entry>): (r: seq<Entry>)
    ensures |r| == |s|
    ensures NonIncreasing(r)
    ensures multiset(r) == multiset(s)
    ensures forall b :: WithBalance(r, b) == WithBalance(s, b)
  {
    if s == [] then []
    else
      var rest := SortByBalance(s[1..]);
      assert s == [s[0]] + s[1..];
      InsertKeepsOrder(s[0], rest);
      assert |multiset(Insert(s[0], rest))| == |s|;
      assert forall b :: WithBalance(Insert(s[0], rest), b) == WithBalance(s, b) by {
        forall b ensures WithBalance(Insert(s[0], rest), b) == WithBalance(s, b) {
          InsertWithBalance(s[0], rest, b);
        }
      }
      Insert(s[0], rest)
  }

  lemma {:induction false} WithBalanceHasMember(s: seq<Entry>, b: real)
    requires WithBalance(s, b) != []
    ensures exists i | 0 <= i < |s| :: s[i].balance == b
    decreases |s|
  {
    if s[0].balance != b {
      WithBalanceHasMember(s[1..], b);
      var i :| 0 <= i < |s[1..]| && s[1..][i].balance == b;
      assert s[i + 1] == s[1..][i];
    }
  }

  lemma HeadBalancePresent(s: seq<Entry>)
    ensures s != [] ==> WithBalance(s, s[0].balance) != []
  {
  }

  lemma OnlyEmptyMatchesEmpty(s: seq<Entry>)
    requires forall b :: WithBalance(s, b) == []
    ensures s == []
  {
    HeadBalancePresent(s);
  }

  /** Two non-increasing sequences with the same entries per balance start
      with the same entry. */
  lemma SameHead(r: seq<Entry>, t: seq<Entry>)
    requires r != [] && t != []
    requires NonIncreasing(r) && NonIncreasing(t)
    requires forall b :: WithBalance(r, b) == WithBalance(t, b)
    ensures r[0] == t[0]
  {
    var b1, b2 := r[0].balance, t[0].balance;
    HeadBalancePresent(r);
    HeadBalancePresent(t);
    WithBalanceHasMember(t, b1);
    WithBalanceHasMember(r, b2);
    assert b1 == b2;
    assert r[0] == WithBalance(r, b1)[0];
    assert t[0] == WithBalance(t, b1)[0];
  }

  /** Dropping the same first entry keeps the entries per balance equal. */
  lemma SameTails(r: seq<Entry>, t: seq<Entry>, b: real)
    requires r != [] && t != [] && r[0] == t[0]
    requires WithBalance(r, b) == WithBalance(t, b)
    ensures WithBalance(r[1..], b) == WithBalance(t[1..], b)
  {
    var head := if r[0].balance == b then [r[0]] else [];
    assert WithBalance(r, b) == head + WithBalance(r[1..], b);
    assert WithBalance(t, b) == head + WithBalance(t[1..], b);
    assert WithBalance(r[1..], b) == WithBalance(r, b)[|head|..];
    assert WithBalance(t[1..], b) == WithBalance(t, b)[|head|..];
  }

  /** The two sort properties leave no freedom: any non-increasing sequence
      that keeps, for every balance, the input's entries of that balance in
      their input order is the sort's output. */
  lemma {:induction false} StableOrderIsUnique(r: seq<Entry>, t: seq<Entry>)
    requires NonIncreasing(r) && NonIncreasing(t)
    requires forall b :: WithBalance(r, b) == WithBalance(t, b)
    ensures r == t
    decreases |r|
  {
    if r == [] {
      OnlyEmptyMatchesEmpty(t);
    } else if t == [] {
      OnlyEmptyMatchesEmpty(r);
    } else {
      SameHead(r, t);
      forall b ensures WithBalance(r[1..], b) == WithBalance(t[1..], b) {
        SameTails(r, t, b);
      }
      StableOrderIsUnique(r[1..], t[1..]);
      assert r == [r[0]] + r[1..] && t == [t[0]] + t[1..];
    }
  }

  /** The table order is exactly Python's stable descending sort: any
      arrangement with its two properties equals `SortByBalance`. */
  lemma SortIsTheStableDescendingOrder(s: seq<Entry>, t: seq<Entry>)
    requires NonIncreasing(t)
    requires forall b :: WithBalance(t, b) == WithBalance(s, b)
    ensures t == SortByBalance(s)
  {
    StableOrderIsUnique(t, SortByBalance(s));
  }

  /** The loop of `update_accounts`: one row appended per sorted entry. */
  method UpdateAccounts(balances: seq<Entry>, mapping: seq<Binding>) returns (table: AccountTable)
    ensures table.header == ["Name", "Balance"]
    ensures |table.body| == |balances|
    ensures forall i, j | 0 <= i < j < |table.body| :: table.body[i].balance >= table.body[j].balance
    ensures forall e | e in balances :: AccountRow(Rename(e.actor, mapping), e.balance) in table.body
    ensures forall i | 0 <= i < |table.body| ::
      table.body[i] == AccountRow(Rename(SortByBalance(balances)[i].actor, mapping), SortByBalance(balances)[i].balance)
  {
    var sorted := SortByBalance(balances);
    var rows: seq<AccountRow> := [];
    for i := 0 to |sorted|
      invariant |rows| == i
      invariant forall k | 0 <= k < i :: rows[k] == AccountRow(Rename(sorted[k].actor, mapping), sorted[k].balance)
    {
      var part := ToParticipant(sorted[i].actor, mapping);
      rows := rows + [AccountRow(part, sorted[i].balance)];
    }
    forall e | e in balances ensures AccountRow(Rename(e.actor, mapping), e.balance) in rows {
      assert e in multiset(sorted);
      var k :| 0 <= k < |sorted| && sorted[k] == e;
      assert rows[k] == AccountRow(Rename(e.actor, mapping), e.balance);
    }
    table := AccountTable(Header, rows);
  }
}
