/**
 * The subscribers table of server.js and the queries its helpers run on it
 * (lines 69-106). The table is a sequence of records; the database's row
 * order carries no meaning, so properties are stated per record and per
 * address rather than per position.
 */
module Registry {

  /** One row of `subscribers`: the address and the time it was inserted. */
  datatype Subscriber = Subscriber(email: string, createdAt: int)

  /** The number of rows whose address is exactly `email`. */
  function Count(table: seq<Subscriber>, email: string): nat
  {
    if table == [] then 0
    else (if table[0].email == email then 1 else 0) + Count(table[1..], email)
  }

  /** `isEmailSubscribed` (lines 69-76): the query `SELECT 1 FROM subscribers
      WHERE email = @email` returns at least one row. */
  predicate IsEmailSubscribed(table: seq<Subscriber>, email: string) {
    exists i | 0 <= i < |table| :: table[i].email == email
  }

  /** The existence query and the row count agree. */
  lemma {:induction false} SubscribedIffCounted(table: seq<Subscriber>, email: string)
    ensures IsEmailSubscribed(table, email) <==> Count(table, email) > 0
  {
    if table != [] {
      SubscribedIffCounted(table[1..], email);
      if IsEmailSubscribed(table, email) && table[0].email != email {
        var i :| 0 <= i < |table| && table[i].email == email;
        assert table[1..][i - 1].email == email;
      }
      if IsEmailSubscribed(table[1..], email) {
        var i :| 0 <= i < |table[1..]| && table[1..][i].email == email;
        assert table[i + 1].email == email;
      }
    }
  }

  /** Inserting a row adds one to its own address's count and nothing to the
      others. */
  lemma {:induction false} CountAppend(table: seq<Subscriber>, row: Subscriber, email: string)
    ensures Count(table + [row], email) == Count(table, email) + (if row.email == email then 1 else 0)
  {
    if table == [] {
      assert table + [row] == [row];
    } else {
      assert (table + [row])[1..] == table[1..] + [row];
      CountAppend(table[1..], row, email);
    }
  }

  /** No address appears on two rows. */
  ghost predicate NoDuplicates(table: seq<Subscriber>) {
    forall email :: Count(table, email) <= 1
  }

  /** `removeSubscriber`'s statement `DELETE FROM subscribers WHERE email =
      @email` (lines 92-99): every row with exactly that address goes, every
      other row stays, as often as it was there. */
  function Without(table: seq<Subscriber>, email: string): (r: seq<Subscriber>)
    ensures forall row :: multiset(r)[row] == if row.email == email then 0 else multiset(table)[row]
    ensures forall e :: Count(r, e) == if e == email then 0 else Count(table, e)
    ensures |r| == |table| - Count(table, email)
  {
    if table == [] then []
    else
      assert table == [table[0]] + table[1..];
      if table[0].email == email then Without(table[1..], email)
      else [table[0]] + Without(table[1..], email)
  }

  /** After the delete nothing with that address is left, and deleting again
      changes nothing. */
  lemma WithoutIdempotent(table: seq<Subscriber>, email: string)
    ensures !IsEmailSubscribed(Without(table, email), email)
    ensures Without(Without(table, email), email) == Without(table, email)
  {
    var once := Without(table, email);
    SubscribedIffCounted(once, email);
    WithoutUnchangedWhenAbsent(once, email);
  }

  /** A delete that matches nothing leaves the table as it was. */
  lemma {:induction false} WithoutUnchangedWhenAbsent(table: seq<Subscriber>, email: string)
    requires Count(table, email) == 0
    ensures Without(table, email) == table
  {
    if table != [] {
      WithoutUnchangedWhenAbsent(table[1..], email);
    }
  }

  /** The delete reports a deleted row (`rowsAffected[0] > 0`) exactly when the
      address was present. */
  lemma WithoutShrinksIffSubscribed(table: seq<Subscriber>, email: string)
    ensures |Without(table, email)| < |table| <==> IsEmailSubscribed(table, email)
  {
    SubscribedIffCounted(table, email);
  }

  /** Newest first: `ORDER BY created_at DESC`. */
  predicate NewestFirstOrder(rows: seq<Subscriber>) {
    forall i, j | 0 <= i < j < |rows| :: rows[i].createdAt >= rows[j].createdAt
  }

  /** Puts `row` into a newest-first sequence at its place. */
  function InsertByDate(row: Subscriber, rows: seq<Subscriber>): (r: seq<Subscriber>)
    requires NewestFirstOrder(rows)
    ensures NewestFirstOrder(r)
    ensures multiset(r) == multiset(rows) + multiset{row}
  {
    if rows == [] || row.createdAt >= rows[0].createdAt then
      [row] + rows
    else
      var rest := InsertByDate(row, rows[1..]);
      assert rows == [rows[0]] + rows[1..];
      InsertByDateBound(row, rows, rest);
      [rows[0]] + rest
  }

  /** Everything the insertion places after the head of `rows` is no newer
      than that head. */
  lemma InsertByDateBound(row: Subscriber, rows: seq<Subscriber>, rest: seq<Subscriber>)
    requires NewestFirstOrder(rows) && rows != [] && row.createdAt < rows[0].createdAt
    requires multiset(rest) == multiset(rows[1..]) + multiset{row}
    ensures forall j | 0 <= j < |rest| :: rest[j].createdAt <= rows[0].createdAt
  {
    forall j | 0 <= j < |rest| ensures rest[j].createdAt <= rows[0].createdAt {
      assert rest[j] in multiset(rest);
      if rest[j] != row {
        assert rest[j] in multiset(rows[1..]);
        var k :| 0 <= k < |rows[1..]| && rows[1..][k] == rest[j];
        assert rows[k + 1] == rest[j];
      }
    }
  }

  /** `listSubscribers` (lines 101-106): `SELECT email, created_at FROM
      subscribers ORDER BY created_at DESC` returns every row, newest first.
      Rows inserted at the same instant may come back in any order; this
      model fixes one. */
  function ListSubscribers(table: seq<Subscriber>): (r: seq<Subscriber>)
    ensures NewestFirstOrder(r)
    ensures multiset(r) == multiset(table)
  {
    if table == [] then []
    else
      assert table == [table[0]] + table[1..];
      InsertByDate(table[0], ListSubscribers(table[1..]))
  }
}
