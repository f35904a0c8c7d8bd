/** The structured campus generator (scripts/generate_sample_data.py,
    `write_structured`): the fixed room list of blocks UB, TP and TP2, and a
    timetable that books a prefix of a freshly shuffled lecture-room list in
    every (day, slot) cell. The random source is a stream of draws; the
    coordinates and their jitter are not modelled. */
module Generator {
  import opened Models
  import Text
  import Arith

  /** A rooms.csv line without its coordinates. */
  datatype RoomRow = RoomRow(roomId: string, block: string, capacity: int, kind: string, ac: string, amenities: string)

  /** `f"{prefix}{floor:02d}{rn:02d}"`. */
  function Id(prefix: string, floor: nat, rn: nat): string
  {
    prefix + Text.Pad2(floor) + Text.Pad2(rn)
  }

  const Classroom := "projector,whiteboard"

  /** One more element of a prefix. */
  lemma PrefixStep<T>(s: seq<T>, n: nat)
    requires n < |s|
    ensures s[..n + 1] == s[..n] + [s[n]]
  {
  }

  // ------------------------------------------------------------ UB

  function UbRoom(floor: nat, rn: nat): RoomRow
  {
    RoomRow(Id("UB-", floor, rn), "UB", 60, "lecture", "Yes", Classroom)
  }

  /** 15 floors of 20 classrooms. */
  function UbRooms(): seq<RoomRow>
  {
    seq(300, i requires 0 <= i < 300 => UbRoom(i / 20 + 1, i % 20 + 1))
  }

  method WriteUb() returns (rows: seq<RoomRow>)
    ensures rows == UbRooms()
  {
    rows := [];
    var floor := 1;
    while floor < 16
      invariant 1 <= floor <= 16
      invariant |rows| == (floor - 1) * 20
      invariant rows == UbRooms()[..|rows|]
    {
      var rn := 1;
      while rn < 21
        invariant 1 <= rn <= 21
        invariant |rows| == (floor - 1) * 20 + rn - 1
        invariant rows == UbRooms()[..|rows|]
      {
        var row := RoomRow("UB-" + Text.Pad2(floor) + Text.Pad2(rn), "UB", 60, "lecture", "Yes", Classroom);
        UbRoomAt(floor, rn, |rows|);
        PrefixStep(UbRooms(), |rows|);
        rows := rows + [row];
        rn := rn + 1;
      }
      floor := floor + 1;
    }
    assert UbRooms()[..300] == UbRooms();
  }

  lemma UbRoomAt(floor: nat, rn: nat, n: nat)
    requires 1 <= floor <= 15 && 1 <= rn <= 20 && n == (floor - 1) * 20 + rn - 1
    ensures UbRooms()[n] == UbRoom(floor, rn)
  {
    Arith.DivModUnique(n, 20, floor - 1, rn - 1);
  }

  // ------------------------------------------------------------ TP

  /** The classroom numbers TP uses on every floor. */
  const TpAllowed: seq<nat> := [1, 2, 3, 4, 9, 10, 11, 12]
  const TpLabFloors: seq<nat> := [2, 5, 8, 11]
  const TpLabNumbers: seq<nat> := [21, 22, 23, 24]

  function TpRoom(floor: nat, rn: nat): RoomRow
  {
    RoomRow(Id("TP-", floor, rn), "TP", 60, "lecture", "Yes", Classroom)
  }

  function TpLab(floor: nat, rn: nat): RoomRow
  {
    RoomRow(Id("TP-", floor, rn), "TP", 60, "lab", "Yes", Classroom)
  }

  /** `allowed[k]`, in closed form. */
  function TpNumber(k: nat): nat
  {
    if k < 4 then k + 1 else k + 5
  }

  lemma TpNumbers()
    ensures forall k | 0 <= k < 8 :: TpAllowed[k] == TpNumber(k)
  {
  }

  function TpRooms(): seq<RoomRow>
  {
    seq(120, i requires 0 <= i < 120 => TpRoom(i / 8 + 1, TpNumber(i % 8)))
  }

  /** `zip(lab_floors, lab_nums)`: one lab on each of four floors. */
  function TpLabs(): seq<RoomRow>
  {
    seq(4, i requires 0 <= i < 4 => TpLab(TpLabFloors[i], TpLabNumbers[i]))
  }

  lemma TpRoomAt(floor: nat, k: nat, n: nat)
    requires 1 <= floor <= 15 && k < 8 && n == (floor - 1) * 8 + k
    ensures TpRooms()[n] == TpRoom(floor, TpAllowed[k])
  {
    TpNumbers();
    Arith.DivModUnique(n, 8, floor - 1, k);
  }

  method WriteTp() returns (rows: seq<RoomRow>)
    ensures rows == TpRooms() + TpLabs()
  {
    rows := [];
    var floor := 1;
    while floor < 16
      invariant 1 <= floor <= 16
      invariant |rows| == (floor - 1) * 8
      invariant rows == TpRooms()[..|rows|]
    {
      var k := 0;
      while k < |TpAllowed|
        invariant 0 <= k <= |TpAllowed|
        invariant |rows| == (floor - 1) * 8 + k
        invariant rows == TpRooms()[..|rows|]
      {
        var rn := TpAllowed[k];
        var row := RoomRow("TP-" + Text.Pad2(floor) + Text.Pad2(rn), "TP", 60, "lecture", "Yes", Classroom);
        TpRoomAt(floor, k, |rows|);
        PrefixStep(TpRooms(), |rows|);
        rows := rows + [row];
        k := k + 1;
      }
      floor := floor + 1;
    }
    assert TpRooms()[..120] == TpRooms();
    var k := 0;
    while k < 4
      invariant 0 <= k <= 4
      invariant rows == TpRooms() + TpLabs()[..k]
    {
      var lf, rn := TpLabFloors[k], TpLabNumbers[k];
      assert TpLabs()[..k + 1] == TpLabs()[..k] + [TpLab(lf, rn)];
      rows := rows + [RoomRow("TP-" + Text.Pad2(lf) + Text.Pad2(rn), "TP", 60, "lab", "Yes", Classroom)];
      k := k + 1;
    }
    assert TpLabs()[..4] == TpLabs();
  }

  // ------------------------------------------------------------ TP2

  /** The classroom floors; 0 stands for the ground floor 'G'. */
  const Tp2ClassroomFloors: seq<nat> := [0, 1, 2, 6, 8, 9, 10, 11, 12, 13, 14, 15]
  /** Seat counts of the twelve auditoriums on floor 7. */
  const AuditoriumCapacities: seq<int> := [120, 120, 120, 110, 110, 110, 110, 110, 110, 110, 100, 100]

  /** The ground floor is written "00", the others with two digits. */
  function FloorLabel(floor: nat): string
  {
    if floor == 0 then "00" else Text.Pad2(floor)
  }

  function Tp2Classroom(floor: nat, rn: nat): RoomRow
  {
    RoomRow("TP2-" + FloorLabel(floor) + Text.Pad2(rn), "TP2", 60, "lecture", "Yes", Classroom)
  }

  function Tp2Lab(floor: nat, rn: nat): RoomRow
  {
    RoomRow(Id("TP2-", floor, rn), "TP2", 60, "lab", "Yes", Classroom)
  }

  function Auditorium(idx: nat, capacity: int): RoomRow
  {
    RoomRow(Id("TP2-", 7, idx), "TP2", capacity, "auditorium", "Yes", "projector")
  }

  /** `classroom_floors[k]`, in closed form. */
  function Tp2Floor(k: nat): nat
  {
    if k <= 2 then k else if k == 3 then 6 else k + 4
  }

  lemma Tp2Floors()
    ensures forall k | 0 <= k < 12 :: Tp2ClassroomFloors[k] == Tp2Floor(k)
  {
  }

  function Tp2Classrooms(): seq<RoomRow>
  {
    seq(240, i requires 0 <= i < 240 => Tp2Classroom(Tp2Floor(i / 20), i % 20 + 1))
  }

  /** Floors 3 to 5, 15 labs each. */
  function Tp2Labs(): seq<RoomRow>
  {
    seq(45, i requires 0 <= i < 45 => Tp2Lab(i / 15 + 3, i % 15 + 1))
  }

  function Auditoriums(): seq<RoomRow>
  {
    seq(12, i requires 0 <= i < 12 => Auditorium(i + 1, AuditoriumCapacities[i]))
  }

  lemma Tp2ClassroomAt(k: nat, fl: nat, rn: nat, n: nat)
    requires k < 12 && fl == Tp2ClassroomFloors[k] && 1 <= rn <= 20 && n == k * 20 + rn - 1
    ensures Tp2Classrooms()[n] == Tp2Classroom(fl, rn)
  {
    Arith.DivModUnique(n, 20, k, rn - 1);
    assert Tp2Classrooms()[n] == Tp2Classroom(Tp2Floor(k), rn);
    Tp2Floors();
  }

  method WriteTp2Classrooms() returns (rows: seq<RoomRow>)
    ensures rows == Tp2Classrooms()
  {
    rows := [];
    var k := 0;
    while k < |Tp2ClassroomFloors|
      invariant 0 <= k <= |Tp2ClassroomFloors|
      invariant |rows| == k * 20
      invariant rows == Tp2Classrooms()[..|rows|]
    {
      var fl := Tp2ClassroomFloors[k];
      var rn := 1;
      while rn < 21
        invariant 1 <= rn <= 21
        invariant |rows| == k * 20 + rn - 1
        invariant rows == Tp2Classrooms()[..|rows|]
      {
        var flStr := if fl == 0 then "00" else Text.Pad2(fl);
        var row := RoomRow("TP2-" + flStr + Text.Pad2(rn), "TP2", 60, "lecture", "Yes", Classroom);
        Tp2ClassroomAt(k, fl, rn, |rows|);
        PrefixStep(Tp2Classrooms(), |rows|);
        rows := rows + [row];
        rn := rn + 1;
      }
      k := k + 1;
    }
    assert Tp2Classrooms()[..240] == Tp2Classrooms();
  }

  method WriteTp2Labs() returns (rows: seq<RoomRow>)
    ensures rows == Tp2Labs()
  {
    rows := [];
    var fl := 3;
    while fl < 6
      invariant 3 <= fl <= 6
      invariant |rows| == (fl - 3) * 15
      invariant rows == Tp2Labs()[..|rows|]
    {
      var rn := 1;
      while rn < 16
        invariant 1 <= rn <= 16
        invariant |rows| == (fl - 3) * 15 + rn - 1
        invariant rows == Tp2Labs()[..|rows|]
      {
        var row := RoomRow("TP2-" + Text.Pad2(fl) + Text.Pad2(rn), "TP2", 60, "lab", "Yes", Classroom);
        Tp2LabAt(fl, rn, |rows|);
        PrefixStep(Tp2Labs(), |rows|);
        rows := rows + [row];
        rn := rn + 1;
      }
      fl := fl + 1;
    }
    assert Tp2Labs()[..45] == Tp2Labs();
  }

  lemma Tp2LabAt(fl: nat, rn: nat, n: nat)
    requires 3 <= fl < 6 && 1 <= rn <= 15 && n == (fl - 3) * 15 + rn - 1
    ensures Tp2Labs()[n] == Tp2Lab(fl, rn)
  {
    Arith.DivModUnique(n, 15, fl - 3, rn - 1);
  }

  method WriteAuditoriums() returns (rows: seq<RoomRow>)
    ensures rows == Auditoriums()
  {
    rows := [];
    var idx := 1;
    while idx <= |AuditoriumCapacities|
      invariant 1 <= idx <= |AuditoriumCapacities| + 1
      invariant rows == Auditoriums()[..idx - 1]
    {
      var cap := AuditoriumCapacities[idx - 1];
      assert Auditoriums()[..idx] == Auditoriums()[..idx - 1] + [Auditorium(idx, cap)];
      assert Text.Pad2(7) == "07";
      assert Id("TP2-", 7, idx) == "TP2-07" + Text.Pad2(idx);
      rows := rows + [RoomRow("TP2-07" + Text.Pad2(idx), "TP2", cap, "auditorium", "Yes", "projector")];
      idx := idx + 1;
    }
    assert Auditoriums()[..12] == Auditoriums();
  }

  // ------------------------------------------------------------ the campus

  function CampusRooms(): seq<RoomRow>
  {
    UbRooms() + TpRooms() + TpLabs() + Tp2Classrooms() + Tp2Labs() + Auditoriums()
  }

  /** The rows of rooms.csv, in the order the generator writes them. */
  method WriteRooms() returns (rows: seq<RoomRow>)
    ensures rows == CampusRooms()
    ensures |rows| == 721
    ensures forall i, j | 0 <= i < j < |rows| :: rows[i].roomId != rows[j].roomId
  {
    var ub := WriteUb();
    var tp := WriteTp();
    var classrooms := WriteTp2Classrooms();
    var labs := WriteTp2Labs();
    var auditoriums := WriteAuditoriums();
    rows := ub + tp + classrooms + labs + auditoriums;
    assert rows == CampusRooms();
    CampusIdsDistinct();
  }

  // ------------------------------------------------------------ distinct ids

  function TpAllowedIndex(rn: int): int
  {
    if rn <= 4 then rn - 1 else rn - 5
  }

  function ClassroomFloorIndex(floor: int): int
  {
    if floor <= 2 then floor else if floor == 6 then 3 else floor - 4
  }

  /** Where in the generated list a room id sits, read back from the id. */
  function IndexOfId(id: string): int
  {
    if |id| == 8 then
      var f := Text.ParseDecimal(id[4..6]);
      var r := Text.ParseDecimal(id[6..8]);
      if f == 7 then 709 + r - 1
      else if 3 <= f <= 5 then 664 + (f - 3) * 15 + r - 1
      else 424 + ClassroomFloorIndex(f) * 20 + r - 1
    else if |id| == 7 then
      var f := Text.ParseDecimal(id[3..5]);
      var r := Text.ParseDecimal(id[5..7]);
      if id[0] == 'U' then (f - 1) * 20 + r - 1
      else if r >= 21 then 420 + (r - 21)
      else 300 + (f - 1) * 8 + TpAllowedIndex(r)
    else -1
  }

  /** The two padded numbers of an id read back. */
  lemma IdParts(prefix: string, floor: nat, rn: nat)
    requires floor < 100 && rn < 100 && |prefix| > 0
    ensures var id := Id(prefix, floor, rn);
      |id| == |prefix| + 4 && id[0] == prefix[0]
      && Text.ParseDecimal(id[|prefix|..|prefix| + 2]) == floor
      && Text.ParseDecimal(id[|prefix| + 2..|prefix| + 4]) == rn
  {
    var id := Id(prefix, floor, rn);
    Text.Pad2Digits(floor);
    Text.Pad2Digits(rn);
    assert id[|prefix|..|prefix| + 2] == Text.Pad2(floor);
    assert id[|prefix| + 2..|prefix| + 4] == Text.Pad2(rn);
    Pad2Parses(floor);
    Pad2Parses(rn);
  }

  lemma Pad2Parses(n: nat)
    requires n < 100
    ensures Text.ParseDecimal(Text.Pad2(n)) == n
  {
    Text.Pad2Digits(n);
    var a, b := Text.DigitChar(n / 10), Text.DigitChar(n % 10);
    assert [a, b][..1] == [a] && [a][..0] == [];
    assert Text.ParseDecimal([a]) == n / 10;
    assert Text.ParseDecimal([a, b]) == (n / 10) * 10 + n % 10;
  }

  lemma UbIndexed()
    ensures forall i | 0 <= i < 300 :: IndexOfId(UbRooms()[i].roomId) == i
  {
    forall i | 0 <= i < 300 ensures IndexOfId(UbRooms()[i].roomId) == i {
      UbIndexedAt(i);
    }
  }

  lemma UbIndexedAt(i: nat)
    requires i < 300
    ensures IndexOfId(UbRooms()[i].roomId) == i
  {
    var f, r := i / 20 + 1, i % 20 + 1;
    var id := UbRooms()[i].roomId;
    assert id == Id("UB-", f, r);
    IdParts("UB-", f, r);
    assert |id| == 7 && id[0] == 'U';
    assert i == (i / 20) * 20 + i % 20;
  }

  lemma TpIndexedAt(i: nat)
    requires i < 120
    ensures IndexOfId(TpRooms()[i].roomId) == 300 + i
  {
    var f, r := i / 8 + 1, TpNumber(i % 8);
    var id := TpRooms()[i].roomId;
    assert id == Id("TP-", f, r);
    IdParts("TP-", f, r);
    assert |id| == 7 && id[0] != 'U' && r < 21;
    assert TpAllowedIndex(r) == i % 8;
    assert i == (i / 8) * 8 + i % 8;
  }

  lemma TpIndexed()
    ensures forall i | 0 <= i < 120 :: IndexOfId(TpRooms()[i].roomId) == 300 + i
    ensures forall i | 0 <= i < 4 :: IndexOfId(TpLabs()[i].roomId) == 420 + i
  {
    forall i | 0 <= i < 120 ensures IndexOfId(TpRooms()[i].roomId) == 300 + i {
      TpIndexedAt(i);
    }
    forall i | 0 <= i < 4 ensures IndexOfId(TpLabs()[i].roomId) == 420 + i {
      TpLabIndexedAt(i);
    }
  }

  lemma TpLabIndexedAt(i: nat)
    requires i < 4
    ensures IndexOfId(TpLabs()[i].roomId) == 420 + i
  {
    var f, r := TpLabFloors[i], TpLabNumbers[i];
    var id := TpLabs()[i].roomId;
    assert id == Id("TP-", f, r) && r == 21 + i;
    IdParts("TP-", f, r);
    assert |id| == 7 && id[0] != 'U' && r >= 21;
  }

  lemma Tp2ClassroomIndexedAt(i: nat)
    requires i < 240
    ensures IndexOfId(Tp2Classrooms()[i].roomId) == 424 + i
  {
    var k, rn := i / 20, i % 20 + 1;
    assert Tp2Classrooms()[i] == Tp2Classroom(Tp2Floor(k), rn);
    Tp2ClassroomIndex(k, rn);
  }

  /** The classroom `rn` of the k-th classroom floor reads back to position
      424 + 20k + rn - 1. */
  lemma Tp2ClassroomIndex(k: nat, rn: nat)
    requires k < 12 && 1 <= rn <= 20
    ensures IndexOfId(Tp2Classroom(Tp2Floor(k), rn).roomId) == 424 + k * 20 + rn - 1
  {
    var f := Tp2Floor(k);
    var id := Tp2Classroom(f, rn).roomId;
    assert id == Id("TP2-", f, rn) by {
      assert FloorLabel(f) == Text.Pad2(f);
    }
    IdParts("TP2-", f, rn);
    assert f != 7 && !(3 <= f <= 5) && ClassroomFloorIndex(f) == k;
  }

  lemma Tp2LabIndexedAt(i: nat)
    requires i < 45
    ensures IndexOfId(Tp2Labs()[i].roomId) == 664 + i
  {
    var f, rn := i / 15 + 3, i % 15 + 1;
    var id := Tp2Labs()[i].roomId;
    assert id == Id("TP2-", f, rn);
    IdParts("TP2-", f, rn);
    assert 3 <= f <= 5 && f != 7;
    assert IndexOfId(id) == 664 + (f - 3) * 15 + rn - 1;
    assert i == (i / 15) * 15 + i % 15;
  }

  lemma Tp2Indexed()
    ensures forall i | 0 <= i < 240 :: IndexOfId(Tp2Classrooms()[i].roomId) == 424 + i
    ensures forall i | 0 <= i < 45 :: IndexOfId(Tp2Labs()[i].roomId) == 664 + i
    ensures forall i | 0 <= i < 12 :: IndexOfId(Auditoriums()[i].roomId) == 709 + i
  {
    forall i | 0 <= i < 240 ensures IndexOfId(Tp2Classrooms()[i].roomId) == 424 + i {
      Tp2ClassroomIndexedAt(i);
    }
    forall i | 0 <= i < 45 ensures IndexOfId(Tp2Labs()[i].roomId) == 664 + i {
      Tp2LabIndexedAt(i);
    }
    forall i | 0 <= i < 12 ensures IndexOfId(Auditoriums()[i].roomId) == 709 + i {
      IdParts("TP2-", 7, i + 1);
    }
  }

  /** Every id decodes to its own position, so no two rooms share an id:
      the unique index on `room_id` accepts the generated file. */
  lemma CampusIdsDistinct()
    ensures forall i | 0 <= i < |CampusRooms()| :: IndexOfId(CampusRooms()[i].roomId) == i
    ensures forall i, j | 0 <= i < j < |CampusRooms()| :: CampusRooms()[i].roomId != CampusRooms()[j].roomId
  {
    UbIndexed();
    TpIndexed();
    Tp2Indexed();
    var rooms := CampusRooms();
    forall i | 0 <= i < |rooms| ensures IndexOfId(rooms[i].roomId) == i {
      if i < 300 {
        assert rooms[i] == UbRooms()[i];
      } else if i < 420 {
        assert rooms[i] == TpRooms()[i - 300];
      } else if i < 424 {
        assert rooms[i] == TpLabs()[i - 420];
      } else if i < 664 {
        assert rooms[i] == Tp2Classrooms()[i - 424];
      } else if i < 709 {
        assert rooms[i] == Tp2Labs()[i - 664];
      } else {
        assert rooms[i] == Auditoriums()[i - 709];
      }
    }
  }

  // ------------------------------------------------------------ room facts

  /** The fixed counts per block and kind, and a few ids as written. */
  lemma CampusShape()
    ensures |UbRooms()| == 300 && |TpRooms()| == 120 && |TpLabs()| == 4
    ensures |Tp2Classrooms()| == 240 && |Tp2Labs()| == 45 && |Auditoriums()| == 12
    ensures |CampusRooms()| == 721
    ensures UbRooms()[0].roomId == "UB-0101" && UbRooms()[299].roomId == "UB-1520"
    ensures TpLabs()[0].roomId == "TP-0221" && TpLabs()[1].roomId == "TP-0522"
    ensures TpLabs()[2].roomId == "TP-0823" && TpLabs()[3].roomId == "TP-1124"
    ensures Tp2Classrooms()[0].roomId == "TP2-0001" && Auditoriums()[11].roomId == "TP2-0712"
  {
    UbFirstId();
    UbLastId();
    TpLabId0();
    TpLabId1();
    TpLabId2();
    TpLabId3();
    Tp2FirstId();
    AuditoriumLastId();
  }

  lemma UbFirstId()
    ensures UbRooms()[0].roomId == "UB-0101"
  {
    assert UbRooms()[0] == UbRoom(1, 1);
    IdDigits("UB-", 1, 1);
    Text.DigitChars();
  }

  lemma UbLastId()
    ensures UbRooms()[299].roomId == "UB-1520"
  {
    assert UbRooms()[299] == UbRoom(15, 20);
    IdDigits("UB-", 15, 20);
    Text.DigitChars();
  }

  lemma TpLabId0()
    ensures TpLabs()[0].roomId == "TP-0221"
  {
    assert TpLabs()[0] == TpLab(2, 21);
    IdDigits("TP-", 2, 21);
    Text.DigitChars();
  }

  lemma TpLabId1()
    ensures TpLabs()[1].roomId == "TP-0522"
  {
    assert TpLabs()[1] == TpLab(5, 22);
    IdDigits("TP-", 5, 22);
    Text.DigitChars();
  }

  lemma TpLabId2()
    ensures TpLabs()[2].roomId == "TP-0823"
  {
    assert TpLabs()[2] == TpLab(8, 23);
    IdDigits("TP-", 8, 23);
    Text.DigitChars();
  }

  lemma TpLabId3()
    ensures TpLabs()[3].roomId == "TP-1124"
  {
    assert TpLabs()[3] == TpLab(11, 24);
    IdDigits("TP-", 11, 24);
    Text.DigitChars();
  }

  lemma Tp2FirstId()
    ensures Tp2Classrooms()[0].roomId == "TP2-0001"
  {
    assert Tp2Classrooms()[0] == Tp2Classroom(0, 1);
    Text.Pad2Digits(1);
    Text.DigitChars();
  }

  lemma AuditoriumLastId()
    ensures Auditoriums()[11].roomId == "TP2-0712"
  {
    assert Auditoriums()[11] == Auditorium(12, 100);
    IdDigits("TP2-", 7, 12);
    Text.DigitChars();
  }

  /** An id below floor and room 100 spelled out digit by digit. */
  lemma IdDigits(prefix: string, floor: nat, rn: nat)
    requires floor < 100 && rn < 100
    ensures Id(prefix, floor, rn)
      == prefix + [Text.DigitChar(floor / 10), Text.DigitChar(floor % 10), Text.DigitChar(rn / 10), Text.DigitChar(rn % 10)]
  {
    Text.Pad2Digits(floor);
    Text.Pad2Digits(rn);
  }

  /** Only the auditoriums differ from 60 seats, and their seats add up to
      1330. */
  lemma Capacities()
    ensures forall i | 0 <= i < |CampusRooms()| ::
      (CampusRooms()[i].kind == "auditorium" <==> i >= 709)
      && (CampusRooms()[i].kind != "auditorium" ==> CampusRooms()[i].capacity == 60)
    ensures forall i | 0 <= i < 12 :: Auditoriums()[i].capacity == AuditoriumCapacities[i]
    ensures Arith.Sum(AuditoriumCapacities) == 1330
  {
    CampusKinds();
    AuditoriumSeats();
  }

  lemma CampusKinds()
    ensures forall i | 0 <= i < |CampusRooms()| ::
      (CampusRooms()[i].kind == "auditorium" <==> i >= 709)
      && (CampusRooms()[i].kind != "auditorium" ==> CampusRooms()[i].capacity == 60)
  {
    var rooms := CampusRooms();
    forall i | 0 <= i < |rooms|
      ensures (rooms[i].kind == "auditorium" <==> i >= 709) && (rooms[i].kind != "auditorium" ==> rooms[i].capacity == 60)
    {
      if i < 300 {
        assert rooms[i] == UbRooms()[i];
      } else if i < 420 {
        assert rooms[i] == TpRooms()[i - 300];
      } else if i < 424 {
        assert rooms[i] == TpLabs()[i - 420];
      } else if i < 664 {
        assert rooms[i] == Tp2Classrooms()[i - 424];
      } else if i < 709 {
        assert rooms[i] == Tp2Labs()[i - 664];
      } else {
        assert rooms[i] == Auditoriums()[i - 709];
      }
    }
  }

  lemma AuditoriumSeats()
    ensures Arith.Sum(AuditoriumCapacities) == 1330
  {
    var c := AuditoriumCapacities;
    assert c[..1][..0] == c[..0] && Arith.Sum(c[..1]) == 120;
    assert c[..2][..1] == c[..1] && Arith.Sum(c[..2]) == 240;
    assert c[..3][..2] == c[..2] && Arith.Sum(c[..3]) == 360;
    assert c[..4][..3] == c[..3] && Arith.Sum(c[..4]) == 470;
    assert c[..5][..4] == c[..4] && Arith.Sum(c[..5]) == 580;
    assert c[..6][..5] == c[..5] && Arith.Sum(c[..6]) == 690;
    assert c[..7][..6] == c[..6] && Arith.Sum(c[..7]) == 800;
    assert c[..8][..7] == c[..7] && Arith.Sum(c[..8]) == 910;
    assert c[..9][..8] == c[..8] && Arith.Sum(c[..9]) == 1020;
    assert c[..10][..9] == c[..9] && Arith.Sum(c[..10]) == 1130;
    assert c[..11][..10] == c[..10] && Arith.Sum(c[..11]) == 1230;
    assert c[..12][..11] == c[..11] && Arith.Sum(c[..12]) == 1330;
    assert c[..12] == c;
  }

  // ------------------------------------------------------------ lecture rooms

  /** `r[2] and str(r[3]).lower() == 'lecture'`. */
  predicate IsLectureRow(r: RoomRow)
  {
    r.capacity != 0 && Text.Lower(r.kind) == "lecture"
  }

  /** `lecture_rooms`: the ids of the lecture rows, in file order. */
  function LectureIds(rows: seq<RoomRow>): (ids: seq<string>)
    ensures |ids| <= |rows|
  {
    if rows == [] then []
    else
      var rest := LectureIds(rows[..|rows| - 1]);
      var r := rows[|rows| - 1];
      if IsLectureRow(r) then rest + [r.roomId] else rest
  }

  function Ids(rows: seq<RoomRow>): (ids: seq<string>)
    ensures |ids| == |rows| && forall i | 0 <= i < |rows| :: ids[i] == rows[i].roomId
  {
    seq(|rows|, i requires 0 <= i < |rows| => rows[i].roomId)
  }

  lemma {:induction false} LectureIdsAppend(a: seq<RoomRow>, b: seq<RoomRow>)
    ensures LectureIds(a + b) == LectureIds(a) + LectureIds(b)
    decreases |b|
  {
    if b == [] {
      assert a + b == a;
    } else {
      assert (a + b)[..|a + b| - 1] == a + b[..|b| - 1];
      LectureIdsAppend(a, b[..|b| - 1]);
    }
  }

  lemma {:induction false} AllLectures(rows: seq<RoomRow>)
    requires forall i | 0 <= i < |rows| :: IsLectureRow(rows[i])
    ensures LectureIds(rows) == Ids(rows)
  {
    if rows != [] {
      AllLectures(rows[..|rows| - 1]);
    }
  }

  lemma {:induction false} NoLectures(rows: seq<RoomRow>)
    requires forall i | 0 <= i < |rows| :: rows[i].kind == "lab" || rows[i].kind == "auditorium"
    ensures LectureIds(rows) == []
  {
    if rows != [] {
      NoLectures(rows[..|rows| - 1]);
    }
  }

  lemma SegmentLectures()
    ensures LectureIds(UbRooms()) == Ids(UbRooms())
    ensures LectureIds(TpRooms()) == Ids(TpRooms())
    ensures LectureIds(Tp2Classrooms()) == Ids(Tp2Classrooms())
  {
    LectureKind();
    UbLectures();
    TpLectures();
    Tp2Lectures();
  }

  lemma LectureKind()
    ensures IsLectureRow(RoomRow("", "", 60, "lecture", "", ""))
  {
    assert Text.Lower("lecture") == "lecture";
  }

  lemma UbLectures()
    requires IsLectureRow(RoomRow("", "", 60, "lecture", "", ""))
    ensures LectureIds(UbRooms()) == Ids(UbRooms())
  {
    forall i | 0 <= i < 300 ensures IsLectureRow(UbRooms()[i]) {
      assert UbRooms()[i].kind == "lecture" && UbRooms()[i].capacity == 60;
    }
    AllLectures(UbRooms());
  }

  lemma TpLectures()
    requires IsLectureRow(RoomRow("", "", 60, "lecture", "", ""))
    ensures LectureIds(TpRooms()) == Ids(TpRooms())
  {
    forall i | 0 <= i < 120 ensures IsLectureRow(TpRooms()[i]) {
      assert TpRooms()[i].kind == "lecture" && TpRooms()[i].capacity == 60;
    }
    AllLectures(TpRooms());
  }

  lemma Tp2Lectures()
    requires IsLectureRow(RoomRow("", "", 60, "lecture", "", ""))
    ensures LectureIds(Tp2Classrooms()) == Ids(Tp2Classrooms())
  {
    forall i | 0 <= i < 240 ensures IsLectureRow(Tp2Classrooms()[i]) {
      assert Tp2Classrooms()[i].kind == "lecture" && Tp2Classrooms()[i].capacity == 60;
    }
    AllLectures(Tp2Classrooms());
  }

  lemma SegmentsWithoutLectures()
    ensures LectureIds(TpLabs()) == [] && LectureIds(Tp2Labs()) == [] && LectureIds(Auditoriums()) == []
  {
    NoLectures(TpLabs());
    NoLectures(Tp2Labs());
    NoLectures(Auditoriums());
  }

  /** The lecture rooms are the UB, TP and TP2 classrooms, in that order. */
  lemma CampusLectureList()
    ensures LectureIds(CampusRooms()) == Ids(UbRooms()) + Ids(TpRooms()) + Ids(Tp2Classrooms())
  {
    SegmentLectures();
    SegmentsWithoutLectures();
    LecturesOfSegments(UbRooms(), TpRooms(), TpLabs(), Tp2Classrooms(), Tp2Labs(), Auditoriums());
  }

  lemma LecturesOfSegments(u: seq<RoomRow>, t: seq<RoomRow>, l: seq<RoomRow>,
                           c: seq<RoomRow>, b: seq<RoomRow>, a: seq<RoomRow>)
    requires LectureIds(u) == Ids(u) && LectureIds(t) == Ids(t) && LectureIds(c) == Ids(c)
    requires LectureIds(l) == [] && LectureIds(b) == [] && LectureIds(a) == []
    ensures LectureIds(u + t + l + c + b + a) == Ids(u) + Ids(t) + Ids(c)
  {
    var x1 := u + t;
    LectureIdsAppend(u, t);
    var x2 := x1 + l;
    LectureIdsAppend(x1, l);
    assert LectureIds(x2) == LectureIds(x1);
    var x3 := x2 + c;
    LectureIdsAppend(x2, c);
    var x4 := x3 + b;
    LectureIdsAppend(x3, b);
    assert LectureIds(x4) == LectureIds(x3);
    var x5 := x4 + a;
    LectureIdsAppend(x4, a);
    assert LectureIds(x5) == LectureIds(x4);
  }

  /** The i-th lecture id reads back as the room's place in the whole list. */
  lemma LectureIndexed(i: nat)
    requires i < 660
    ensures IndexOfId((Ids(UbRooms()) + Ids(TpRooms()) + Ids(Tp2Classrooms()))[i]) == if i < 420 then i else i + 4
  {
    var u, t, c := Ids(UbRooms()), Ids(TpRooms()), Ids(Tp2Classrooms());
    var ut := u + t;
    assert |u| == 300 && |t| == 120 && |c| == 240;
    if i < 420 {
      assert (ut + c)[i] == ut[i];
      if i < 300 {
        assert ut[i] == UbRooms()[i].roomId;
        UbIndexedAt(i);
      } else {
        assert ut[i] == TpRooms()[i - 300].roomId;
        TpIndexedAt(i - 300);
      }
    } else {
      assert (ut + c)[i] == Tp2Classrooms()[i - 420].roomId;
      Tp2ClassroomIndexedAt(i - 420);
    }
  }

  /** 660 lecture rooms, all ids distinct. */
  lemma CampusLectures()
    ensures |LectureIds(CampusRooms())| == 660
    ensures Distinct(LectureIds(CampusRooms()))
  {
    CampusLectureList();
    var ids := LectureIds(CampusRooms());
    forall i, j | 0 <= i < j < |ids| ensures ids[i] != ids[j] {
      LectureIndexed(i);
      LectureIndexed(j);
    }
  }

  // ------------------------------------------------------------ timetable

  const Courses: seq<string> := ["CS101", "MATH201", "ENG101", "PHY102", "-"]

  /** `[c for c in COURSES if c != '-']`. */
  function Bookable(cs: seq<string>): (r: seq<string>)
    ensures forall i | 0 <= i < |r| :: r[i] != "-" && r[i] in cs
  {
    if cs == [] then []
    else
      var rest := Bookable(cs[..|cs| - 1]);
      var c := cs[|cs| - 1];
      if c != "-" then rest + [c] else rest
  }

  /** The courses `rng.choice` picks from. */
  const BookableNames: seq<string> := ["CS101", "MATH201", "ENG101", "PHY102"]

  lemma BookableCourses()
    ensures Bookable(Courses) == BookableNames
  {
    var c := Courses;
    assert c[..1][..0] == c[..0] && Bookable(c[..1]) == ["CS101"];
    assert c[..2][..1] == c[..1] && Bookable(c[..2]) == ["CS101", "MATH201"];
    assert c[..3][..2] == c[..2] && Bookable(c[..3]) == ["CS101", "MATH201", "ENG101"];
    assert c[..4][..3] == c[..3] && Bookable(c[..4]) == ["CS101", "MATH201", "ENG101", "PHY102"];
    assert c[..5][..4] == c[..4] && c[..5] == c;
  }

  /** `max(1, int(n * 0.6))`. */
  function PerSlot(n: nat): nat
  {
    var k := n * 6 / 10;
    if k > 1 then k else 1
  }

  /** `lecture_rooms[:per_slot]` is shorter when the list is. */
  function Booked(n: nat): nat
  {
    if PerSlot(n) < n then PerSlot(n) else n
  }

  datatype TimetableRow = TimetableRow(roomId: string, day: string, slot: int, course: string)

  /** The k-th draw of `rng._randbelow(n)`. */
  function Below(stream: nat -> nat, k: nat, n: nat): (r: nat)
    requires n > 0
    ensures r < n
  {
    stream(k) % n
  }

  function Swap(s: seq<string>, i: nat, j: nat): (r: seq<string>)
    requires i < |s| && j < |s|
    ensures |r| == |s|
  {
    s[i := s[j]][j := s[i]]
  }

  /** CPython's `shuffle` from position `i` down to 1: swap each position
      with a draw at or below it. */
  function FisherYates(s: seq<string>, stream: nat -> nat, k: nat, i: nat): seq<string>
    requires i < |s|
    decreases i
  {
    if i == 0 then s else FisherYates(Swap(s, i, Below(stream, k, i + 1)), stream, k + 1, i - 1)
  }

  function Shuffled(s: seq<string>, stream: nat -> nat, k: nat): seq<string>
  {
    if s == [] then s else FisherYates(s, stream, k, |s| - 1)
  }

  predicate Distinct(s: seq<string>)
  {
    forall i, j | 0 <= i < j < |s| :: s[i] != s[j]
  }

  lemma SwapKeeps(s: seq<string>, i: nat, j: nat)
    requires i < |s| && j < |s|
    ensures |Swap(s, i, j)| == |s|
    ensures multiset(Swap(s, i, j)) == multiset(s)
    ensures forall x :: x in Swap(s, i, j) <==> x in s
    ensures Distinct(s) ==> Distinct(Swap(s, i, j))
  {
    var r := Swap(s, i, j);
    forall x ensures x in r <==> x in s {
      if x in s {
        var p :| 0 <= p < |s| && s[p] == x;
        if p == i { assert r[j] == x; } else if p == j { assert r[i] == x; } else { assert r[p] == x; }
      }
      if x in r {
        var p :| 0 <= p < |r| && r[p] == x;
        if p == i { assert s[j] == x; } else if p == j { assert s[i] == x; } else { assert s[p] == x; }
      }
    }
    if Distinct(s) {
      forall a, b | 0 <= a < b < |r| ensures r[a] != r[b] {
        var a' := if a == i then j else if a == j then i else a;
        var b' := if b == i then j else if b == j then i else b;
        assert r[a] == s[a'] && r[b] == s[b'] && a' != b';
      }
    }
  }

  /** Shuffling keeps the elements, and distinct elements stay distinct. */
  lemma {:induction false} FisherYatesKeeps(s: seq<string>, stream: nat -> nat, k: nat, i: nat)
    requires i < |s|
    ensures |FisherYates(s, stream, k, i)| == |s|
    ensures multiset(FisherYates(s, stream, k, i)) == multiset(s)
    ensures forall x :: x in FisherYates(s, stream, k, i) <==> x in s
    ensures Distinct(s) ==> Distinct(FisherYates(s, stream, k, i))
    decreases i
  {
    if i > 0 {
      var j := Below(stream, k, i + 1);
      SwapKeeps(s, i, j);
      FisherYatesKeeps(Swap(s, i, j), stream, k + 1, i - 1);
    }
  }

  lemma ShuffledKeeps(s: seq<string>, stream: nat -> nat, k: nat)
    ensures |Shuffled(s, stream, k)| == |s|
    ensures multiset(Shuffled(s, stream, k)) == multiset(s)
    ensures forall x :: x in Shuffled(s, stream, k) <==> x in s
    ensures Distinct(s) ==> Distinct(Shuffled(s, stream, k))
  {
    if s != [] {
      FisherYatesKeeps(s, stream, k, |s| - 1);
    }
  }

  /** The draws a shuffle of `n` elements takes: one per position above
      the first. */
  function Pred(n: nat): nat
  {
    if n > 0 then n - 1 else 0
  }

  /** `rng.shuffle(lecture_rooms)` in place; it takes one draw per position
      above the first. */
  method Shuffle(a: array<string>, stream: nat -> nat, k0: nat) returns (k: nat)
    modifies a
    ensures a[..] == Shuffled(old(a[..]), stream, k0)
    ensures k == k0 + Pred(a.Length)
  {
    k := k0;
    if a.Length == 0 {
      return;
    }
    var i := a.Length - 1;
    ghost var cur := a[..];
    ghost var goal := Shuffled(cur, stream, k0);
    while i > 0
      invariant 0 <= i < a.Length == |cur|
      invariant k == k0 + (a.Length - 1 - i)
      invariant a[..] == cur
      invariant FisherYates(cur, stream, k, i) == goal
    {
      var j := Below(stream, k, i + 1);
      SwapAt(a, i, j);
      assert FisherYates(Swap(cur, i, j), stream, k + 1, i - 1) == goal by {
        assert FisherYates(cur, stream, k, i) == FisherYates(Swap(cur, i, j), stream, k + 1, i - 1);
      }
      cur := Swap(cur, i, j);
      k := k + 1;
      i := i - 1;
    }
  }

  /** `x[i], x[j] = x[j], x[i]`. */
  method SwapAt(a: array<string>, i: nat, j: nat)
    requires i < a.Length && j < a.Length
    modifies a
    ensures a[..] == Swap(old(a[..]), i, j)
  {
    var t := a[i];
    a[i] := a[j];
    a[j] := t;
  }

  /** The rows of one cell: what the booking promises about them. */
  predicate CellBooks(cell: seq<TimetableRow>, day: string, slot: int, lectures: seq<string>, size: nat)
  {
    |cell| == size
    && (forall p | 0 <= p < |cell| ::
          cell[p].day == day && cell[p].slot == slot && cell[p].roomId in lectures
          && cell[p].course in Courses && cell[p].course != "-")
    && (Distinct(lectures) ==> forall p, q | 0 <= p < q < |cell| :: cell[p].roomId != cell[q].roomId)
  }

  /** `rng.choice` over the courses other than '-' (`BookableCourses`),
      with draw `k`. */
  function CourseDraw(stream: nat -> nat, k: nat): string
  {
    BookableNames[Below(stream, k, |BookableNames|)]
  }

  lemma CourseDrawBookable(stream: nat -> nat, k: nat)
    ensures CourseDraw(stream, k) in Courses && CourseDraw(stream, k) != "-"
  {
  }

  /** One (day, slot) cell: shuffle, take the first `per_slot` rooms, and
      give each a random non-'-' course. */
  method BookCell(a: array<string>, stream: nat -> nat, k0: nat, day: string, slot: int, size: nat,
                  ghost lectures: seq<string>)
    returns (cell: seq<TimetableRow>, k: nat)
    requires size <= a.Length
    requires forall x :: x in a[..] <==> x in lectures
    requires Distinct(lectures) ==> Distinct(a[..])
    modifies a
    ensures forall x :: x in a[..] <==> x in lectures
    ensures Distinct(lectures) ==> Distinct(a[..])
    ensures CellBooks(cell, day, slot, lectures, size)
    ensures a[..] == Shuffled(old(a[..]), stream, k0)
    ensures cell == CellOf(a[..][..size], day, slot, stream, k0 + Pred(a.Length))
    ensures k == k0 + Pred(a.Length) + size
  {
    var ks := Shuffle(a, stream, k0);
    ShuffledKeeps(old(a[..]), stream, k0);
    var selected := a[..size];
    cell, k := AssignCourses(selected, stream, ks, day, slot);
    PrefixKeeps(a[..], size, lectures);
    CellOfBooks(selected, day, slot, lectures, stream, ks);
  }

  /** The first `size` rooms of a list holding the lecture rooms are lecture
      rooms, distinct when the lecture rooms are. */
  lemma PrefixKeeps(s: seq<string>, size: nat, lectures: seq<string>)
    requires size <= |s|
    requires forall x :: x in s <==> x in lectures
    requires Distinct(lectures) ==> Distinct(s)
    ensures forall q | 0 <= q < size :: s[..size][q] in lectures
    ensures Distinct(lectures) ==> Distinct(s[..size])
  {
    forall q | 0 <= q < size ensures s[..size][q] in lectures {
      assert s[..size][q] == s[q];
    }
  }

  /** The rows `for rid in selected: w.writerow([rid, day, slot, course])`
      write, the course of the q-th row taken with draw `k + q`. */
  function CellOf(selected: seq<string>, day: string, slot: int, stream: nat -> nat, k: nat): seq<TimetableRow>
  {
    if selected == [] then []
    else
      var n := |selected| - 1;
      CellOf(selected[..n], day, slot, stream, k) + [TimetableRow(selected[n], day, slot, CourseDraw(stream, k + n))]
  }

  /** One more selected room adds its row at the end. */
  lemma CellOfStep(selected: seq<string>, p: nat, day: string, slot: int, stream: nat -> nat, k: nat)
    requires p < |selected|
    ensures CellOf(selected[..p + 1], day, slot, stream, k)
      == CellOf(selected[..p], day, slot, stream, k) + [TimetableRow(selected[p], day, slot, CourseDraw(stream, k + p))]
  {
    assert selected[..p + 1][..p] == selected[..p];
  }

  /** Row q of the cell is for the q-th selected room, with draw `k + q`. */
  lemma {:induction false} CellOfRows(selected: seq<string>, day: string, slot: int, stream: nat -> nat, k: nat)
    ensures |CellOf(selected, day, slot, stream, k)| == |selected|
    ensures forall q | 0 <= q < |selected| ::
      CellOf(selected, day, slot, stream, k)[q] == TimetableRow(selected[q], day, slot, CourseDraw(stream, k + q))
  {
    if selected != [] {
      var n := |selected| - 1;
      var init := selected[..n];
      CellOfRows(init, day, slot, stream, k);
      var c := CellOf(selected, day, slot, stream, k);
      assert c == CellOf(init, day, slot, stream, k) + [TimetableRow(selected[n], day, slot, CourseDraw(stream, k + n))];
      forall q | 0 <= q < n
        ensures c[q] == TimetableRow(selected[q], day, slot, CourseDraw(stream, k + q))
      {
        assert c[q] == CellOf(init, day, slot, stream, k)[q] && init[q] == selected[q];
      }
    }
  }

  /** Rows for distinct lecture rooms, each with its course draw, book the
      cell. */
  lemma CellOfBooks(selected: seq<string>, day: string, slot: int, lectures: seq<string>, stream: nat -> nat, k: nat)
    requires forall q | 0 <= q < |selected| :: selected[q] in lectures
    requires Distinct(lectures) ==> Distinct(selected)
    ensures CellBooks(CellOf(selected, day, slot, stream, k), day, slot, lectures, |selected|)
  {
    CellOfRows(selected, day, slot, stream, k);
    var c := CellOf(selected, day, slot, stream, k);
    forall q | 0 <= q < |c| ensures c[q].course in Courses && c[q].course != "-" {
      CourseDrawBookable(stream, k + q);
    }
  }

  /** One row per selected room, each with a course drawn from the bookable
      ones. */
  method AssignCourses(selected: seq<string>, stream: nat -> nat, k0: nat, day: string, slot: int)
    returns (cell: seq<TimetableRow>, k: nat)
    ensures cell == CellOf(selected, day, slot, stream, k0)
    ensures k == k0 + |selected|
  {
    k := k0;
    cell := [];
    var p := 0;
    while p < |selected|
      invariant 0 <= p <= |selected|
      invariant k == k0 + p
      invariant cell == CellOf(selected[..p], day, slot, stream, k0)
    {
      var course := CourseDraw(stream, k);
      CellOfStep(selected, p, day, slot, stream, k0);
      cell := cell + [TimetableRow(selected[p], day, slot, course)];
      k := k + 1;
      p := p + 1;
    }
    assert selected[..p] == selected;
  }

  function Flatten(cells: seq<seq<TimetableRow>>): seq<TimetableRow>
  {
    if cells == [] then [] else Flatten(cells[..|cells| - 1]) + cells[|cells| - 1]
  }

  lemma {:induction false} FlattenLength(cells: seq<seq<TimetableRow>>, size: nat)
    requires forall c | 0 <= c < |cells| :: |cells[c]| == size
    ensures |Flatten(cells)| == |cells| * size
  {
    if cells != [] {
      FlattenLength(cells[..|cells| - 1], size);
    }
  }

  lemma CellsExtend(cells: seq<seq<TimetableRow>>, cell: seq<TimetableRow>, d: nat, slot: nat,
                    lectures: seq<string>, size: nat)
    requires d < 7 && slot < 10 && |cells| == d * 10 + slot
    requires forall c | 0 <= c < |cells| :: CellBooks(cells[c], DayNames[c / 10], c % 10, lectures, size)
    requires CellBooks(cell, DayNames[d], slot, lectures, size)
    ensures Flatten(cells + [cell]) == Flatten(cells) + cell
    ensures forall c | 0 <= c < |cells| + 1 ::
      CellBooks((cells + [cell])[c], DayNames[c / 10], c % 10, lectures, size)
  {
    var cs := cells + [cell];
    assert cs[..|cs| - 1] == cells;
    assert Flatten(cs) == Flatten(cs[..|cs| - 1]) + cs[|cs| - 1];
    Arith.DivModUnique(d * 10 + slot, 10, d, slot);
    forall c | 0 <= c < |cs| ensures CellBooks(cs[c], DayNames[c / 10], c % 10, lectures, size) {
      if c < |cells| {
        assert cs[c] == cells[c];
      } else {
        assert cs[c] == cell && c / 10 == d && c % 10 == slot;
      }
    }
  }

  /** timetable.csv: for every day and slot, the cell's rows in turn. Each
      cell books `min(per_slot, n)` lecture rooms, distinct when the lecture
      ids are, none with course '-'. */
  method WriteTimetable(rooms: seq<RoomRow>, stream: nat -> nat) returns (rows: seq<TimetableRow>, cells: seq<seq<TimetableRow>>)
    ensures |cells| == 70
    ensures rows == Flatten(cells)
    ensures |rows| == 70 * Booked(|LectureIds(rooms)|)
    ensures forall c | 0 <= c < 70 ::
      CellBooks(cells[c], DayNames[c / 10], c % 10, LectureIds(rooms), Booked(|LectureIds(rooms)|))
  {
    var lectures := LectureIds(rooms);
    var n := |lectures|;
    var perSlot := PerSlot(n);
    var size := if perSlot < n then perSlot else n;
    var a := new string[n](i requires 0 <= i < n => lectures[i]);
    assert a[..] == lectures;
    var k := 0;
    cells := [];
    rows := [];
    var d := 0;
    while d < 7
      invariant 0 <= d <= 7
      invariant a.Length == n
      invariant forall x :: x in a[..] <==> x in lectures
      invariant Distinct(lectures) ==> Distinct(a[..])
      invariant |cells| == d * 10
      invariant rows == Flatten(cells)
      invariant forall c | 0 <= c < |cells| :: CellBooks(cells[c], DayNames[c / 10], c % 10, lectures, size)
    {
      var slot := 0;
      while slot < 10
        invariant 0 <= slot <= 10
        invariant a.Length == n
        invariant forall x :: x in a[..] <==> x in lectures
        invariant Distinct(lectures) ==> Distinct(a[..])
        invariant |cells| == d * 10 + slot
        invariant rows == Flatten(cells)
        invariant forall c | 0 <= c < |cells| :: CellBooks(cells[c], DayNames[c / 10], c % 10, lectures, size)
      {
        var cell;
        cell, k := BookCell(a, stream, k, DayNames[d], slot, size, lectures);
        CellsExtend(cells, cell, d, slot, lectures, size);
        cells := cells + [cell];
        rows := rows + cell;
        slot := slot + 1;
      }
      d := d + 1;
    }
    FlattenLength(cells, size);
  }

  /** With the generated campus: 660 lecture rooms and 396 booked per cell,
      at least half of them; 396 of 660 rounds to 60 percent, the value
      `Analytics.CampusCellCoverage` gives such a cell. */
  lemma CampusBookings()
    ensures |LectureIds(CampusRooms())| == 660
    ensures PerSlot(660) == 396 && Booked(660) == 396
    ensures 2 * 396 >= 660
    ensures Arith.RoundHalfEven(100 * 396, 660) == 60
  {
    CampusLectures();
  }
}
