/**
 Two end-to-end request sequences against an empty store, checked against
 the handlers' definitions.
 */
module Scenarios {
  import opened Rows
  import opened Registry
  import opened Movements
  import opened History

  /** Register badge `B1` as Alice, report it twice, then read the history:
      `IN` then `OUT`, both named Alice, newest first. */
  lemma AliceChecksInAndOut()
    ensures var s1 := PostUser(Empty, Text("B1"), Text("Alice"), Absent, Absent);
            var m1 := PostMovement(s1.store, Text("B1"));
            var m2 := PostMovement(m1.store, Text("B1"));
            && s1.response.status == 201
            && m1.response == Response(200, Movement("B1", IN, Some("Alice")))
            && m2.response == Response(200, Movement("B1", OUT, Some("Alice")))
            && ListMovements(m2.store) ==
                 Response(200, History([HistoryRow(2, "B1", OUT, Some("Alice")), HistoryRow(1, "B1", IN, Some("Alice"))]))
  {
    AliceRegisters();
    AliceFirstReport();
    AliceSecondReport();
    AliceHistory();
  }

  lemma AliceRegisters()
    ensures PostUser(Empty, Text("B1"), Text("Alice"), Absent, Absent) ==
              Reply(Store([UserRow("B1", "Alice", None, None)], []), Response(201, Message(UserCreated)))
  {
  }

  lemma AliceFirstReport()
    ensures PostMovement(Store([UserRow("B1", "Alice", None, None)], []), Text("B1")) ==
              Reply(Store([UserRow("B1", "Alice", None, None)], [MovementRow("B1", IN)]),
                    Response(200, Movement("B1", IN, Some("Alice"))))
  {
  }

  lemma AliceSecondReport()
    ensures PostMovement(Store([UserRow("B1", "Alice", None, None)], [MovementRow("B1", IN)]), Text("B1")) ==
              Reply(Store([UserRow("B1", "Alice", None, None)], [MovementRow("B1", IN), MovementRow("B1", OUT)]),
                    Response(200, Movement("B1", OUT, Some("Alice"))))
  {
    Alternator.InDiffersFromOut();
    assert Alternator.LatestIndex([MovementRow("B1", IN)], "B1") == Some(0);
  }

  lemma AliceHistory()
    ensures ListMovements(Store([UserRow("B1", "Alice", None, None)], [MovementRow("B1", IN), MovementRow("B1", OUT)])) ==
              Response(200, History([HistoryRow(2, "B1", OUT, Some("Alice")), HistoryRow(1, "B1", IN, Some("Alice"))]))
  {
    var users := [UserRow("B1", "Alice", None, None)];
    var ms := [MovementRow("B1", IN), MovementRow("B1", OUT)];
    assert UniqueBadges(users);
    JoinedWithUniqueBadges(ms, users, 0);
    JoinedWithUniqueBadges(ms, users, 1);
  }

  /** A badge nobody registered and nobody reported is checked in, unnamed. */
  lemma UnknownBadgeChecksIn()
    ensures PostMovement(Empty, Text("UNKNOWN")).response == Response(200, Movement("UNKNOWN", IN, None))
  {
  }

  /** Registering a badge twice makes the history list each of its movements
      twice, once per user row the LEFT JOIN matches. */
  lemma DuplicateRegistrationRepeatsMovement()
    ensures var s1 := PostUser(Empty, Text("B1"), Text("Alice"), Absent, Absent).store;
            var s2 := PostUser(s1, Text("B1"), Text("Alicia"), Absent, Absent).store;
            var s3 := PostMovement(s2, Text("B1")).store;
            ListMovements(s3) ==
              Response(200, History([HistoryRow(1, "B1", IN, Some("Alice")), HistoryRow(1, "B1", IN, Some("Alicia"))]))
  {
    var users := [UserRow("B1", "Alice", None, None), UserRow("B1", "Alicia", None, None)];
    var ms := [MovementRow("B1", IN)];
    var s1 := PostUser(Empty, Text("B1"), Text("Alice"), Absent, Absent).store;
    var s2 := PostUser(s1, Text("B1"), Text("Alicia"), Absent, Absent).store;
    assert PostMovement(s2, Text("B1")).store == Store(users, ms) by {
      TwiceRegisteredStore();
    }
    assert ListMovements(Store(users, ms)) ==
             Response(200, History([HistoryRow(1, "B1", IN, Some("Alice")), HistoryRow(1, "B1", IN, Some("Alicia"))])) by {
      TwiceRegisteredJoin();
    }
  }

  lemma TwiceRegisteredStore()
    ensures var s1 := PostUser(Empty, Text("B1"), Text("Alice"), Absent, Absent).store;
            var s2 := PostUser(s1, Text("B1"), Text("Alicia"), Absent, Absent).store;
            PostMovement(s2, Text("B1")).store ==
              Store([UserRow("B1", "Alice", None, None), UserRow("B1", "Alicia", None, None)], [MovementRow("B1", IN)])
  {
    var alice := UserRow("B1", "Alice", None, None);
    var alicia := UserRow("B1", "Alicia", None, None);
    var s1 := PostUser(Empty, Text("B1"), Text("Alice"), Absent, Absent).store;
    assert s1.users == [alice];
    var s2 := PostUser(s1, Text("B1"), Text("Alicia"), Absent, Absent).store;
    assert s2.users == [alice, alicia];
  }

  lemma TwiceRegisteredJoin()
    ensures Joined([MovementRow("B1", IN)], [UserRow("B1", "Alice", None, None), UserRow("B1", "Alicia", None, None)]) ==
              [HistoryRow(1, "B1", IN, Some("Alice")), HistoryRow(1, "B1", IN, Some("Alicia"))]
  {
    var alice := UserRow("B1", "Alice", None, None);
    var alicia := UserRow("B1", "Alicia", None, None);
    var m := MovementRow("B1", IN);
    assert [alice, alicia][..1] == [alice];
    assert [alice][..0] == [];
    assert MatchingNames([alice], "B1") == ["Alice"];
    assert MatchingNames([alice, alicia], "B1") == ["Alice", "Alicia"];
    var rows := JoinRows(1, m, [alice, alicia]);
    assert rows == [HistoryRow(1, "B1", IN, Some("Alice")), HistoryRow(1, "B1", IN, Some("Alicia"))];
    assert [m][..0] == [];
  }
}
