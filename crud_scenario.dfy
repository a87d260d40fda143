/** The sequence of calls of `test_crud_operations`, checked against the
    contracts of `ColumnFamily` alone. */
module CrudScenario {
  import opened Wrappers
  import opened Lex
  import opened SortedStore
  import opened ColumnFamilies

  datatype TestUser = TestUser(id: string, name: string)

  /** The records of the test: `TestUser` keyed by its id, in the column
      family "test_users", with a codec that encodes every record and gives
      it back. */
  ghost predicate UsersView(users: ColumnFamily<TestUser>)
  {
    && users.family == "test_users"
    && (forall u :: users.key(u) == u.id)
    && (forall u :: users.encode(u).Some?)
    && users.RoundTrips()
  }

  /** `test_crud_operations` from an empty "test_users" family: the family
      ends with Bob's record alone, and each read returns what the test
      asserts. */
  method CrudOperations(db: Db, encode: TestUser -> Option<Bytes>, decode: Bytes -> Option<TestUser>)
      returns (deleted: Result<Option<TestUser>>, remaining: Result<seq<TestUser>>, neverSet: Result<Option<TestUser>>)
    requires db.Valid() && "test_users" in db.families && db.data["test_users"] == []
    requires forall u :: encode(u).Some? && decode(encode(u).value) == Some(u)
    modifies db
    ensures db.Valid()
    ensures db.data["test_users"] == [("002", encode(TestUser("002", "Bob")).value)]
    ensures deleted == Ok(None) && remaining == Ok([TestUser("002", "Bob")]) && neverSet == Ok(None)
  {
    var users := new ColumnFamily(db, "test_users", (u: TestUser) => u.id, encode, decode);
    var readAlice, all, count := CreateAndRead(users);
    var readAlicia := Update(users);
    DeleteAlicia(users);
    deleted, remaining, neverSet := ReadAfterDelete(users);
  }

  /** Create, read one, read all, count. */
  method CreateAndRead(users: ColumnFamily<TestUser>)
      returns (readAlice: Result<Option<TestUser>>, all: Result<seq<TestUser>>, count: Result<nat>)
    requires UsersView(users) && users.db.Valid() && users.HandleFound()
    requires users.db.data["test_users"] == []
    modifies users.db
    ensures users.db.Valid()
    ensures users.db.data["test_users"]
         == [("001", users.encode(TestUser("001", "Alice")).value), ("002", users.encode(TestUser("002", "Bob")).value)]
    ensures readAlice == Ok(Some(TestUser("001", "Alice")))
    ensures all == Ok([TestUser("001", "Alice"), TestUser("002", "Bob")])
    ensures count == Ok(2)
  {
    var alice, bob := TestUser("001", "Alice"), TestUser("002", "Bob");
    var a, b := users.encode(alice).value, users.encode(bob).value;
    assert !Less("002", "001");

    var done := users.Set(alice);
    assert done == Ok(()) && users.db.data["test_users"] == [("001", a)];
    readAlice := users.Get("001");

    done := users.Set(bob);
    assert users.db.data["test_users"] == [("001", a), ("002", b)];
    all := users.GetAll();
    assert all.Ok? && all.value == [alice, bob];
    count := users.CountAll();
  }

  /** Update, and read the update back. */
  method Update(users: ColumnFamily<TestUser>) returns (readAlicia: Result<Option<TestUser>>)
    requires UsersView(users) && users.db.Valid() && users.HandleFound()
    requires users.db.data["test_users"]
          == [("001", users.encode(TestUser("001", "Alice")).value), ("002", users.encode(TestUser("002", "Bob")).value)]
    modifies users.db
    ensures users.db.Valid()
    ensures users.db.data["test_users"]
         == [("001", users.encode(TestUser("001", "Alicia")).value), ("002", users.encode(TestUser("002", "Bob")).value)]
    ensures readAlicia == Ok(Some(TestUser("001", "Alicia")))
  {
    var alicia := TestUser("001", "Alicia");
    var done := users.Set(alicia);
    readAlicia := users.Get("001");
  }

  /** Delete. */
  method DeleteAlicia(users: ColumnFamily<TestUser>)
    requires UsersView(users) && users.db.Valid() && users.HandleFound()
    requires users.db.data["test_users"]
          == [("001", users.encode(TestUser("001", "Alicia")).value), ("002", users.encode(TestUser("002", "Bob")).value)]
    modifies users.db
    ensures users.db.Valid()
    ensures users.db.data["test_users"] == [("002", users.encode(TestUser("002", "Bob")).value)]
  {
    var b := users.encode(TestUser("002", "Bob")).value;
    ghost var before := users.db.data["test_users"];
    assert before[1..] == [("002", b)] && [("002", b)][1..] == [];
    assert Delete([("002", b)], ["001"]) == [("002", b)];
    var done := users.Del("001");
  }

  /** Read the deleted key, read what is left, read a key never set. */
  method ReadAfterDelete(users: ColumnFamily<TestUser>)
      returns (deleted: Result<Option<TestUser>>, remaining: Result<seq<TestUser>>, neverSet: Result<Option<TestUser>>)
    requires UsersView(users) && users.db.Valid() && users.HandleFound()
    requires users.db.data["test_users"] == [("002", users.encode(TestUser("002", "Bob")).value)]
    ensures deleted == Ok(None)
    ensures remaining == Ok([TestUser("002", "Bob")])
    ensures neverSet == Ok(None)
  {
    var bob := TestUser("002", "Bob");
    var b := users.encode(bob).value;
    assert users.decode(b) == Some(bob);
    deleted := users.Get("001");
    remaining := users.GetAll();
    assert remaining.Ok? && |remaining.value| == 1 && remaining.value[0] == bob;
    assert remaining.value == [bob];
    neverSet := users.Get("non_existent");
  }
}
