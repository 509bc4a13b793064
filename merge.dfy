/** `DataMerger.merge`: group students into the rooms they name. The dict
    keyed by room id is a `map` plus the sequence of its keys in insertion
    order, since a Python dict iterates in that order. */
module RoomMerge {
  import opened Wrappers

  datatype Room = Room(id: int, name: string)

  /** A student record; `room` is None where the record has no `room` key. */
  datatype Student = Student(id: int, name: string, room: Option<int>)

  /** The `{id, name}` entry appended for a student. */
  datatype StudentInfo = StudentInfo(id: int, name: string)

  /** A room's own fields plus its `students` list. */
  datatype MergedRoom = MergedRoom(room: Room, students: seq<StudentInfo>)

  function Info(s: Student): StudentInfo {
    StudentInfo(s.id, s.name)
  }

  predicate Distinct(ids: seq<int>) {
    forall k, l :: 0 <= k < l < |ids| ==> ids[k] != ids[l]
  }

  /** Some room in `rooms` has this id. */
  predicate HasRoom(rooms: seq<Room>, id: int) {
    exists j :: 0 <= j < |rooms| && rooms[j].id == id
  }

  /** The keys of `{room['id']: ... for room in rooms}`: each distinct room
      id once, in order of first appearance. */
  function RoomIds(rooms: seq<Room>): (ids: seq<int>)
    ensures Distinct(ids)
    ensures forall id :: id in ids <==> HasRoom(rooms, id)
  {
    if rooms == [] then []
    else
      var prev, id := RoomIds(rooms[..|rooms| - 1]), rooms[|rooms| - 1].id;
      assert forall j :: 0 <= j < |rooms| - 1 ==> rooms[..|rooms| - 1][j] == rooms[j];
      if id in prev then prev else prev + [id]
  }

  /** The fields the comprehension keeps for `id`: a later room with the
      same id replaces an earlier one, so those of the last such room. */
  function LastRoomWith(rooms: seq<Room>, id: int): (r: Room)
    requires HasRoom(rooms, id)
    ensures r.id == id
    ensures exists j :: 0 <= j < |rooms| && rooms[j] == r
                        && forall j' :: j < j' < |rooms| ==> rooms[j'].id != id
  {
    var last := rooms[|rooms| - 1];
    if last.id == id then last
    else
      var prefix := rooms[..|rooms| - 1];
      assert HasRoom(prefix, id) by {
        var j :| 0 <= j < |rooms| && rooms[j].id == id;
        assert prefix[j] == rooms[j];
      }
      var r := LastRoomWith(prefix, id);
      assert forall j :: 0 <= j < |prefix| ==> prefix[j] == rooms[j];
      r
  }

  /** The `students` list of room `id`: the entries of the students whose
      `room` is `id`, in input order. */
  function StudentsIn(students: seq<Student>, id: int): seq<StudentInfo> {
    if students == [] then []
    else
      var last := students[|students| - 1];
      StudentsIn(students[..|students| - 1], id) + (if last.room == Some(id) then [Info(last)] else [])
  }

  /** What `merge` returns: one entry per room id in order of first
      appearance, holding the last room's fields and that room's students. */
  function MergeSpec(rooms: seq<Room>, students: seq<Student>): seq<MergedRoom> {
    var ids := RoomIds(rooms);
    seq(|ids|, k requires 0 <= k < |ids| =>
      MergedRoom(LastRoomWith(rooms, ids[k]), StudentsIn(students, ids[k])))
  }

  // ----- one step of each loop -----

  lemma RoomIdsStep(rooms: seq<Room>, i: nat)
    requires i < |rooms|
    ensures RoomIds(rooms[..i + 1]) ==
      if rooms[i].id in RoomIds(rooms[..i]) then RoomIds(rooms[..i]) else RoomIds(rooms[..i]) + [rooms[i].id]
  {
    assert rooms[..i + 1][..i] == rooms[..i];
  }

  lemma LastRoomWithStep(rooms: seq<Room>, i: nat, id: int)
    requires i < |rooms|
    requires id == rooms[i].id || HasRoom(rooms[..i], id)
    ensures HasRoom(rooms[..i + 1], id)
    ensures LastRoomWith(rooms[..i + 1], id) ==
      if rooms[i].id == id then rooms[i] else LastRoomWith(rooms[..i], id)
  {
    assert rooms[..i + 1][..i] == rooms[..i];
    assert rooms[..i + 1][i] == rooms[i];
    if id != rooms[i].id {
      var j :| 0 <= j < i && rooms[..i][j].id == id;
      assert rooms[..i + 1][j] == rooms[..i][j];
    }
  }

  lemma StudentsInStep(students: seq<Student>, j: nat, id: int)
    requires j < |students|
    ensures StudentsIn(students[..j + 1], id) ==
      StudentsIn(students[..j], id) + (if students[j].room == Some(id) then [Info(students[j])] else [])
  {
    assert students[..j + 1][..j] == students[..j];
  }

  /** The table after the first `n` rooms: `order` lists its keys in
      insertion order, and each entry holds the last room with its id and
      an empty student list. */
  ghost predicate RoomsLoaded(rooms: seq<Room>, n: nat, order: seq<int>, table: map<int, MergedRoom>)
    requires n <= |rooms|
  {
    && order == RoomIds(rooms[..n])
    && (forall id :: id in table <==> id in order)
    && forall id :: id in table ==>
         HasRoom(rooms[..n], id) && table[id] == MergedRoom(LastRoomWith(rooms[..n], id), [])
  }

  /** Loading room `i` keeps `RoomsLoaded`: a new id is appended to the key
      order, an existing one keeps its place and has its fields replaced. */
  lemma LoadRoomStep(rooms: seq<Room>, i: nat, order: seq<int>, table: map<int, MergedRoom>)
    requires i < |rooms| && RoomsLoaded(rooms, i, order, table)
    ensures RoomsLoaded(rooms, i + 1,
      if rooms[i].id in table then order else order + [rooms[i].id],
      table[rooms[i].id := MergedRoom(rooms[i], [])])
  {
    RoomIdsStep(rooms, i);
    var table' := table[rooms[i].id := MergedRoom(rooms[i], [])];
    forall id | id in table'
      ensures HasRoom(rooms[..i + 1], id)
      ensures table'[id] == MergedRoom(LastRoomWith(rooms[..i + 1], id), [])
    {
      LastRoomWithStep(rooms, i, id);
    }
  }

  /** The table after the first `n` students: the keys are unchanged, and
      each entry holds the last room with its id and the entries of the
      students among the first `n` that name it. */
  ghost predicate StudentsPlaced(rooms: seq<Room>, students: seq<Student>, n: nat,
                                 order: seq<int>, table: map<int, MergedRoom>)
    requires n <= |students|
  {
    && (forall id :: id in table <==> id in order)
    && forall id :: id in table ==>
         HasRoom(rooms, id) && table[id] == MergedRoom(LastRoomWith(rooms, id), StudentsIn(students[..n], id))
  }

  /** With every room loaded and no student placed yet, the table is
      `StudentsPlaced` for the empty prefix of the students. */
  lemma StartPlacing(rooms: seq<Room>, students: seq<Student>, order: seq<int>, table: map<int, MergedRoom>)
    requires RoomsLoaded(rooms, |rooms|, order, table)
    ensures order == RoomIds(rooms)
    ensures StudentsPlaced(rooms, students, 0, order, table)
  {
    assert rooms[..|rooms|] == rooms;
    assert students[..0] == [];
  }

  /** Placing student `j` keeps `StudentsPlaced`: the student's entry is
      appended to the room it names when that room is a key, and otherwise
      the table is unchanged. */
  lemma PlaceStudentStep(rooms: seq<Room>, students: seq<Student>, j: nat,
                         order: seq<int>, table: map<int, MergedRoom>)
    requires j < |students| && StudentsPlaced(rooms, students, j, order, table)
    ensures var s := students[j];
      StudentsPlaced(rooms, students, j + 1, order,
        if s.room.Some? && s.room.value in table
        then table[s.room.value := table[s.room.value].(students := table[s.room.value].students + [Info(s)])]
        else table)
  {
    forall id {
      StudentsInStep(students, j, id);
    }
  }

  /** Once every student is placed, reading the entries out in key order
      gives `MergeSpec`. */
  lemma ReadOutStep(rooms: seq<Room>, students: seq<Student>, order: seq<int>, table: map<int, MergedRoom>)
    requires order == RoomIds(rooms)
    requires StudentsPlaced(rooms, students, |students|, order, table)
    ensures |order| == |MergeSpec(rooms, students)|
    ensures forall k :: 0 <= k < |order| ==> order[k] in table && table[order[k]] == MergeSpec(rooms, students)[k]
  {
    assert students[..|students|] == students;
  }

  /** `DataMerger.merge(rooms, students)`. */
  method Merge(rooms: seq<Room>, students: seq<Student>) returns (merged: seq<MergedRoom>)
    ensures merged == MergeSpec(rooms, students)
  {
    // One table entry per room id, holding the fields of the last room with
    // that id and an empty student list; `order` records first insertion.
    var order: seq<int> := [];
    var table: map<int, MergedRoom> := map[];
    for i := 0 to |rooms|
      invariant RoomsLoaded(rooms, i, order, table)
    {
      var room := rooms[i];
      LoadRoomStep(rooms, i, order, table);
      if room.id !in table {
        order := order + [room.id];
      }
      table := table[room.id := MergedRoom(room, [])];
    }
    StartPlacing(rooms, students, order, table);
    // Append each student to the room it names, if that room exists.
    for j := 0 to |students|
      invariant order == RoomIds(rooms)
      invariant StudentsPlaced(rooms, students, j, order, table)
    {
      var student := students[j];
      PlaceStudentStep(rooms, students, j, order, table);
      if student.room.Some? && student.room.value in table {
        var id := student.room.value;
        table := table[id := table[id].(students := table[id].students + [Info(student)])];
      }
    }
    // Read the entries out in key insertion order.
    ReadOutStep(rooms, students, order, table);
    merged := seq(|order|, k requires 0 <= k < |order| => table[order[k]]);
  }

  // ----- what merge promises -----

  /** Some room with id `x` comes before every room with id `y`. */
  predicate AppearsBefore(rooms: seq<Room>, x: int, y: int) {
    exists j :: 0 <= j < |rooms| && rooms[j].id == x && forall j' :: 0 <= j' <= j ==> rooms[j'].id != y
  }

  lemma {:induction false} RoomIdsInFirstAppearanceOrder(rooms: seq<Room>)
    ensures forall k, l :: 0 <= k < l < |RoomIds(rooms)| ==>
      AppearsBefore(rooms, RoomIds(rooms)[k], RoomIds(rooms)[l])
  {
    if rooms != [] {
      var n := |rooms| - 1;
      var prefix := rooms[..n];
      RoomIdsInFirstAppearanceOrder(prefix);
      var prev, ids := RoomIds(prefix), RoomIds(rooms);
      assert forall j :: 0 <= j < n ==> prefix[j] == rooms[j];
      forall k, l | 0 <= k < l < |ids|
        ensures AppearsBefore(rooms, ids[k], ids[l])
      {
        assert ids[k] == prev[k];
        if l < |prev| {
          assert ids[l] == prev[l];
          var j :| 0 <= j < n && prefix[j].id == prev[k] && forall j' :: 0 <= j' <= j ==> prefix[j'].id != prev[l];
          assert rooms[j].id == ids[k];
        } else {
          assert ids[l] == rooms[n].id && rooms[n].id !in prev;
          assert prev[k] in prev;
          var j :| 0 <= j < n && prefix[j].id == prev[k];
          forall j' | 0 <= j' <= j ensures rooms[j'].id != ids[l] {
            assert prefix[j'].id in prev;
          }
          assert rooms[j].id == ids[k];
        }
      }
    }
  }

  /** The output holds exactly one entry per distinct room id, in order of
      first appearance, each with the fields of the LAST room with that id. */
  lemma MergeOnePerRoomId(rooms: seq<Room>, students: seq<Student>)
    ensures var merged := MergeSpec(rooms, students);
      && (forall k, l :: 0 <= k < l < |merged| ==> merged[k].room.id != merged[l].room.id)
      && (forall id :: HasRoom(rooms, id) <==> exists k :: 0 <= k < |merged| && merged[k].room.id == id)
      && (forall k, l :: 0 <= k < l < |merged| ==> AppearsBefore(rooms, merged[k].room.id, merged[l].room.id))
      && (forall k :: 0 <= k < |merged| ==>
            exists j :: 0 <= j < |rooms| && rooms[j] == merged[k].room
                        && forall j' :: j < j' < |rooms| ==> rooms[j'].id != merged[k].room.id)
  {
    var merged, ids := MergeSpec(rooms, students), RoomIds(rooms);
    RoomIdsInFirstAppearanceOrder(rooms);
    assert forall k :: 0 <= k < |merged| ==> merged[k].room.id == ids[k];
    forall id | HasRoom(rooms, id)
      ensures exists k :: 0 <= k < |merged| && merged[k].room.id == id
    {
      var k :| 0 <= k < |ids| && ids[k] == id;
      assert merged[k].room.id == id;
    }
  }

  /** A room's `students` list, entry by entry: an entry is there exactly
      when some student naming that room carries it. */
  lemma {:induction false} StudentsInMembers(students: seq<Student>, id: int, x: StudentInfo)
    ensures x in StudentsIn(students, id) <==>
      exists j :: 0 <= j < |students| && students[j].room == Some(id) && Info(students[j]) == x
  {
    if students != [] {
      var n := |students| - 1;
      StudentsInMembers(students[..n], id, x);
      assert forall j :: 0 <= j < n ==> students[..n][j] == students[j];
    }
  }

  /** The number of students naming room `id`. */
  function CountIn(students: seq<Student>, id: int): nat {
    if students == [] then 0
    else CountIn(students[..|students| - 1], id) + (if students[|students| - 1].room == Some(id) then 1 else 0)
  }

  /** The number of students whose room exists among `rooms`. */
  function CountPlaced(students: seq<Student>, rooms: seq<Room>): nat {
    if students == [] then 0
    else
      var last := students[|students| - 1];
      CountPlaced(students[..|students| - 1], rooms) + (if last.room.Some? && HasRoom(rooms, last.room.value) then 1 else 0)
  }

  lemma {:induction false} StudentsInCount(students: seq<Student>, id: int)
    ensures |StudentsIn(students, id)| == CountIn(students, id)
  {
    if students != [] {
      StudentsInCount(students[..|students| - 1], id);
    }
  }

  /** A student lands in the room it names and in no other, and students
      with a missing or unknown room are dropped. */
  lemma MergePlacesByRoom(rooms: seq<Room>, students: seq<Student>)
    ensures var merged := MergeSpec(rooms, students);
      forall k :: 0 <= k < |merged| ==>
        && |merged[k].students| == CountIn(students, merged[k].room.id)
        && forall x :: x in merged[k].students <==>
             exists j :: 0 <= j < |students| && students[j].room == Some(merged[k].room.id) && Info(students[j]) == x
  {
    var merged := MergeSpec(rooms, students);
    forall k | 0 <= k < |merged|
      ensures |merged[k].students| == CountIn(students, merged[k].room.id)
      ensures forall x :: x in merged[k].students <==>
             exists j :: 0 <= j < |students| && students[j].room == Some(merged[k].room.id) && Info(students[j]) == x
    {
      StudentsInCount(students, merged[k].room.id);
      forall x {
        StudentsInMembers(students, merged[k].room.id, x);
      }
    }
  }

  lemma {:induction false} StudentsInAppend(a: seq<Student>, b: seq<Student>, id: int)
    ensures StudentsIn(a + b, id) == StudentsIn(a, id) + StudentsIn(b, id)
    decreases |b|
  {
    if b != [] {
      var n := |b| - 1;
      assert (a + b)[..|a + b| - 1] == a + b[..n];
      StudentsInAppend(a, b[..n], id);
    } else {
      assert a + b == a;
    }
  }

  /** Within a room, students keep their input order: the students taken
      from an earlier part of the input come before those from a later one. */
  lemma MergeKeepsInputOrder(rooms: seq<Room>, a: seq<Student>, b: seq<Student>)
    ensures forall k :: 0 <= k < |RoomIds(rooms)| ==>
      MergeSpec(rooms, a + b)[k].students == MergeSpec(rooms, a)[k].students + MergeSpec(rooms, b)[k].students
  {
    forall k | 0 <= k < |RoomIds(rooms)| {
      StudentsInAppend(a, b, RoomIds(rooms)[k]);
    }
  }

  /** The number of student entries across all rooms. */
  function TotalEntries(merged: seq<MergedRoom>): nat {
    if merged == [] then 0 else |merged[0].students| + TotalEntries(merged[1..])
  }

  /** The room counts of the students naming each of `ids`, summed. */
  function SumCounts(students: seq<Student>, ids: seq<int>): nat {
    if ids == [] then 0 else CountIn(students, ids[0]) + SumCounts(students, ids[1..])
  }

  lemma {:induction false} SumCountsStep(students: seq<Student>, s: Student, ids: seq<int>)
    requires Distinct(ids)
    ensures SumCounts(students + [s], ids) ==
      SumCounts(students, ids) + (if s.room.Some? && s.room.value in ids then 1 else 0)
  {
    assert (students + [s])[..|students|] == students;
    if ids != [] {
      assert Distinct(ids[1..]) by {
        forall k, l | 0 <= k < l < |ids[1..]| ensures ids[1..][k] != ids[1..][l] {
          assert ids[1..][k] == ids[k + 1] && ids[1..][l] == ids[l + 1];
        }
      }
      SumCountsStep(students, s, ids[1..]);
      assert s.room == Some(ids[0]) ==> s.room.value !in ids[1..];
      assert ids == [ids[0]] + ids[1..];
    }
  }

  lemma {:induction false} SumCountsIsCountPlaced(students: seq<Student>, rooms: seq<Room>)
    ensures SumCounts(students, RoomIds(rooms)) == CountPlaced(students, rooms)
  {
    if students == [] {
      var ids := RoomIds(rooms);
      assert forall t :: 0 <= t <= |ids| ==> SumCounts([], ids[t..]) == 0 by {
        forall t | 0 <= t <= |ids| ensures SumCounts([], ids[t..]) == 0 {
          ZeroCounts(ids[t..]);
        }
      }
      assert ids[0..] == ids;
    } else {
      var n := |students| - 1;
      SumCountsIsCountPlaced(students[..n], rooms);
      SumCountsStep(students[..n], students[n], RoomIds(rooms));
      assert students[..n] + [students[n]] == students;
    }
  }

  lemma {:induction false} ZeroCounts(ids: seq<int>)
    ensures SumCounts([], ids) == 0
  {
    if ids != [] {
      ZeroCounts(ids[1..]);
    }
  }

  lemma {:induction false} TotalEntriesOfSpec(merged: seq<MergedRoom>, students: seq<Student>, ids: seq<int>)
    requires |merged| == |ids|
    requires forall k :: 0 <= k < |ids| ==> merged[k].students == StudentsIn(students, ids[k])
    ensures TotalEntries(merged) == SumCounts(students, ids)
  {
    if ids != [] {
      StudentsInCount(students, ids[0]);
      TotalEntriesOfSpec(merged[1..], students, ids[1..]);
    }
  }

  /** Every student whose room exists is placed exactly once: the entries
      across all rooms number the students with an existing room. */
  lemma MergeCountsPlacedStudents(rooms: seq<Room>, students: seq<Student>)
    ensures TotalEntries(MergeSpec(rooms, students)) == CountPlaced(students, rooms)
  {
    TotalEntriesOfSpec(MergeSpec(rooms, students), students, RoomIds(rooms));
    SumCountsIsCountPlaced(students, rooms);
  }
}
