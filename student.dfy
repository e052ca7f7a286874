/**
 The in-memory student record store behind the `/student` routes: a dictionary
 from id strings to records `{name, age, email}`, with create, list, get,
 update and delete operations, and the lookup that the summary route does
 before it calls the text generator.

 Errors that the routes raise as HTTP exceptions (400 for a duplicate email,
 404 for a missing id) are returned here as the variants of `Result`.
 */
module StudentRoutes {

  /** A stored student: the fields of `StudentCreateDTO`. */
  datatype Student = Student(name: string, age: int, email: string)

  /** What the routes return: the stored fields together with the id (`StudentResponseDTO`). */
  datatype StudentRecord = StudentRecord(id: string, name: string, age: int, email: string)

  /** The outcome of a route: a value, or one of the two errors the routes raise. */
  datatype Result<T> = Ok(value: T) | DuplicateEmail | NotFound

  /** The age constraint of `StudentCreateDTO`: an integer between 0 and 150 inclusive. */
  predicate ValidAge(age: int) {
    0 <= age <= 150
  }

  /** `{**student, "id": id}`: the response built from stored fields and an id. */
  function WithId(s: Student, id: string): (r: StudentRecord)
    ensures r.id == id && Fields(r) == s
  {
    StudentRecord(id, s.name, s.age, s.email)
  }

  /** The stored fields of a response, without its id. */
  function Fields(r: StudentRecord): Student {
    Student(r.name, r.age, r.email)
  }

  /** Some stored record has this email. */
  ghost predicate EmailInUse(m: map<string, Student>, email: string) {
    exists id :: id in m && m[id].email == email
  }

  /** No two stored records share an email. */
  ghost predicate EmailsUnique(m: map<string, Student>) {
    forall a, b :: a in m && b in m && m[a].email == m[b].email ==> a == b
  }

  /** Every stored record passed the age validation. */
  ghost predicate AgesValid(m: map<string, Student>) {
    forall id :: id in m ==> ValidAge(m[id].age)
  }

  /** No id occurs twice in a key order. */
  ghost predicate Distinct(s: seq<string>) {
    forall i, j :: 0 <= i < j < |s| ==> s[i] != s[j]
  }

  /** The key order of a dictionary after `del` of key `x` (see RemoveKeyAt: every other key keeps its place). */
  function RemoveKey(s: seq<string>, x: string): (r: seq<string>)
    ensures forall y :: y in r <==> y in s && y != x
    ensures Distinct(s) ==> Distinct(r)
  {
    if s == [] then []
    else if s[0] == x then RemoveKey(s[1..], x)
    else
      var rest := RemoveKey(s[1..], x);
      assert Distinct(s) ==> s[0] !in s[1..] && Distinct(s[1..]);
      [s[0]] + rest
  }

  /** In an order without repetitions, removing the key at position `k` leaves the keys before and after it in place. */
  lemma {:induction false} RemoveKeyAt(s: seq<string>, x: string, k: nat)
    requires Distinct(s)
    requires k < |s| && s[k] == x
    ensures RemoveKey(s, x) == s[..k] + s[k + 1..]
  {
    if k == 0 {
      assert x !in s[1..];
      RemoveKeyAbsent(s[1..], x);
    } else {
      assert s[0] != x;
      RemoveKeyAt(s[1..], x, k - 1);
      assert s[1..][..k - 1] + s[1..][k..] == s[1..k] + s[k + 1..];
      assert [s[0]] + s[1..k] == s[..k];
    }
  }

  /** Removing a key that the order does not hold leaves the order as it was. */
  lemma {:induction false} RemoveKeyAbsent(s: seq<string>, x: string)
    requires x !in s
    ensures RemoveKey(s, x) == s
  {
    if s != [] {
      RemoveKeyAbsent(s[1..], x);
    }
  }

  /** A key order without repetitions that lists exactly the keys of a map is as long as the map is large. */
  lemma {:induction false} DistinctKeysCount(s: seq<string>, m: map<string, Student>)
    requires Distinct(s)
    requires forall k :: k in s <==> k in m
    ensures |s| == |m|
  {
    if s == [] {
      assert m.Keys == {};
    } else {
      var n := |s| - 1;
      var last := s[n];
      var front := s[..n];
      var rest := m - {last};
      assert last in m;
      forall k ensures k in front <==> k in rest {
        if k in front {
          var i :| 0 <= i < n && front[i] == k;
          assert s[i] == k && s[i] != s[n];
        }
        if k in rest {
          assert k in s && k != last;
          var i :| 0 <= i < |s| && s[i] == k;
          assert i < n;
          assert front[i] == k;
        }
      }
      DistinctKeysCount(front, rest);
      assert m.Keys == rest.Keys + {last};
    }
  }

  /** An upper bound on the length of every id in a finite set. */
  ghost function MaxLength(keys: set<string>): (n: nat)
    ensures forall k :: k in keys ==> |k| <= n
    decreases keys
  {
    if keys == {} then 0
    else
      var k :| k in keys;
      var n := MaxLength(keys - {k});
      if |k| <= n then n else |k|
  }

  /**
   The id oracle that stands for `uuid4()` can always be served: however many
   ids the store holds, some string is not one of them.
   */
  lemma {:induction false} FreshIdAvailable(keys: set<string>)
    ensures exists id :: id !in keys
  {
    var id := seq(MaxLength(keys) + 1, _ => 'x');
    assert |id| > MaxLength(keys);
    assert id !in keys;
  }

  /**
   The scan at the start of `create_student`: it looks at every stored record
   and reports whether one of them has the given email.
   */
  method ScanEmail(students: map<string, Student>, email: string) returns (taken: bool)
    ensures taken <==> EmailInUse(students, email)
  {
    var rest := students.Values;
    while rest != {}
      invariant rest <= students.Values
      invariant forall s :: s in students.Values && s !in rest ==> s.email != email
      decreases rest
    {
      var s :| s in rest;
      if s.email == email {
        return true;
      }
      rest := rest - {s};
    }
    taken := false;
  }

  /**
   Replacing a record, as `update_student` does, keeps the emails pairwise
   distinct exactly when no OTHER stored record already has the new email.
   The route never consults the other records, so nothing rules that case out.
   */
  lemma UpdateKeepsUniqueIff(m: map<string, Student>, id: string, s: Student)
    requires EmailsUnique(m)
    requires id in m
    ensures EmailsUnique(m[id := s]) <==> !EmailInUse(m - {id}, s.email)
  {
    var m' := m[id := s];
    if EmailInUse(m - {id}, s.email) {
      var other :| other in m - {id} && (m - {id})[other].email == s.email;
      assert other in m' && id in m' && m'[other].email == m'[id].email && other != id;
    } else {
      forall a, b | a in m' && b in m' && a != b
        ensures m'[a].email != m'[b].email
      {
        if a == id {
          assert (m - {id})[b] == m'[b];
        } else if b == id {
          assert (m - {id})[a] == m'[a];
        } else {
          assert m'[a] == m[a] && m'[b] == m[b];
        }
      }
    }
  }

  /** The process-wide `students` dictionary and the routes that use it. */
  class Store {
    /** The stored records, by id. */
    var students: map<string, Student>
    /** The ids in the dictionary's insertion order, which is the order in which `items()` yields them. */
    var order: seq<string>

    /** The insertion order lists every id once, and every stored age passed validation. */
    ghost predicate Valid()
      reads this
    {
      && Distinct(order)
      && (forall id :: id in order <==> id in students)
      && AgesValid(students)
    }

    /** The empty dictionary of a freshly started process. */
    constructor ()
      ensures Valid()
      ensures students == map[] && order == []
    {
      students := map[];
      order := [];
    }

    /**
     `create_student`. `freshId` is what `uuid4()` produced: the model assumes
     it is not an id already stored (see FreshIdAvailable).
     */
    method Create(student: Student, freshId: string) returns (r: Result<StudentRecord>)
      requires Valid()
      requires ValidAge(student.age)
      requires freshId !in students
      modifies this
      ensures Valid()
      ensures old(EmailInUse(students, student.email)) ==>
                r == DuplicateEmail && students == old(students) && order == old(order)
      ensures !old(EmailInUse(students, student.email)) ==>
                && r == Ok(WithId(student, freshId))
                && students == old(students)[freshId := student]
                && order == old(order) + [freshId]
      ensures r.Ok? ==> r.value.id !in old(students) && Get(r.value.id) == r
      ensures old(EmailsUnique(students)) ==> EmailsUnique(students)
    {
      var taken := ScanEmail(students, student.email);
      if taken {
        return DuplicateEmail;
      }
      students := students[freshId := student];
      order := order + [freshId];
      r := Ok(WithId(student, freshId));
    }

    /** `get_all_students`: one response per stored record, in insertion order. */
    function List(): (r: seq<StudentRecord>)
      reads this
      requires Valid()
      ensures |r| == |students| == |order|
      ensures forall i :: 0 <= i < |r| ==> r[i].id in students && Fields(r[i]) == students[r[i].id]
      ensures forall i, j :: 0 <= i < j < |r| ==> r[i].id != r[j].id
      ensures forall i :: 0 <= i < |r| ==> r[i].id == order[i]
      ensures forall i :: 0 <= i < |r| ==> ValidAge(r[i].age)
    {
      DistinctKeysCount(order, students);
      var m, ids := students, order;
      seq(|ids|, i requires 0 <= i < |ids| && ids[i] in m => WithId(m[ids[i]], ids[i]))
    }

    /** Every stored record appears in List, with its id and exactly its stored fields. */
    lemma ListHasEveryRecord(id: string)
      requires Valid()
      requires id in students
      ensures exists i :: 0 <= i < |List()| && List()[i] == WithId(students[id], id)
    {
      var i :| 0 <= i < |order| && order[i] == id;
      assert List()[i] == WithId(students[id], id);
    }

    /**
     `get_student_by_id`. A stored record always has three keys and so is
     truthy: the route's emptiness test fails exactly when the id is absent.
     */
    function Get(id: string): (r: Result<StudentRecord>)
      reads this
      ensures r.Ok? <==> id in students
      ensures r.Ok? ==> r.value.id == id && Fields(r.value) == students[id]
      ensures !r.Ok? ==> r == NotFound
    {
      if id in students then Ok(WithId(students[id], id)) else NotFound
    }

    /**
     `update_student`: replaces the whole record of a present id. It does NOT
     check the new email against the other records (see UpdateKeepsUniqueIff).
     */
    method Update(id: string, updated: Student) returns (r: Result<StudentRecord>)
      requires Valid()
      requires ValidAge(updated.age)
      modifies this
      ensures Valid()
      ensures id !in old(students) ==>
                r == NotFound && students == old(students) && order == old(order)
      ensures id in old(students) ==>
                && r == Ok(WithId(updated, id))
                && students.Keys == old(students).Keys
                && students == old(students)[id := updated]
                && order == old(order)
      ensures r.Ok? ==> Get(id) == r
    {
      if id !in students {
        return NotFound;
      }
      students := students[id := updated];
      r := Ok(WithId(updated, id));
    }

    /** `delete_student`: removes a present id; a later Get on it fails. */
    method Delete(id: string) returns (r: Result<()>)
      requires Valid()
      modifies this
      ensures Valid()
      ensures id !in old(students) ==>
                r == NotFound && students == old(students) && order == old(order)
      ensures id in old(students) ==>
                && r == Ok(())
                && students == old(students) - {id}
                && order == RemoveKey(old(order), id)
      ensures Get(id) == NotFound
      ensures old(EmailsUnique(students)) ==> EmailsUnique(students)
    {
      if id !in students {
        return NotFound;
      }
      students := students - {id};
      order := RemoveKey(order, id);
      r := Ok(());
    }

    /**
     The lookup that `get_student_summary` does before calling the text
     generator: the fields that would be sent, or NotFound.
     */
    function SummaryLookup(id: string): (r: Result<Student>)
      reads this
      ensures r.NotFound? <==> id !in students
      ensures r.Ok? ==> r.value == students[id]
      ensures !r.DuplicateEmail?
    {
      var g := Get(id);
      if g.Ok? then Ok(Fields(g.value)) else NotFound
    }
  }

  /**
   Two creates with distinct emails both succeed with distinct ids; a third
   create with the first email fails and leaves two records stored.
   */
  method CreateScenario(a: Student, b: Student, c: Student, idA: string, idB: string, idC: string)
    returns (ra: Result<StudentRecord>, rb: Result<StudentRecord>, rc: Result<StudentRecord>, count: nat)
    requires ValidAge(a.age) && ValidAge(b.age) && ValidAge(c.age)
    requires a.email != b.email && c.email == a.email
    requires idA != idB && idC != idA && idC != idB
    ensures ra.Ok? && rb.Ok? && ra.value.id != rb.value.id
    ensures Fields(ra.value) == a && Fields(rb.value) == b
    ensures rc == DuplicateEmail && count == 2
  {
    var store := new Store();
    ra := store.Create(a, idA);
    rb := store.Create(b, idB);
    assert store.students[idA].email == c.email;
    rc := store.Create(c, idC);
    assert store.students.Keys == {idA, idB};
    count := |store.students|;
  }

  /**
   Two records with distinct emails, then an update of the second one to the
   first one's email: the update succeeds and two records share an email.
   */
  method UpdateDuplicatesEmailScenario(a: Student, b: Student, idA: string, idB: string)
    returns (ru: Result<StudentRecord>, unique: bool)
    requires ValidAge(a.age) && ValidAge(b.age)
    requires a.email != b.email && idA != idB
    ensures ru.Ok? && ru.value.email == a.email
    ensures !unique
  {
    var store := new Store();
    var ra := store.Create(a, idA);
    var rb := store.Create(b, idB);
    ru := store.Update(idB, Student(b.name, b.age, a.email));
    unique := store.students[idA].email != store.students[idB].email;
  }
  /**
   A record's life: after a create, List shows exactly that record; after a
   delete, Get and a second delete both report NotFound.
   */
  method LifecycleScenario(a: Student, idA: string)
    returns (listed: seq<StudentRecord>, deleted: Result<()>, got: Result<StudentRecord>, again: Result<()>)
    requires ValidAge(a.age)
    ensures listed == [WithId(a, idA)]
    ensures deleted == Ok(()) && got == NotFound && again == NotFound
  {
    var store := new Store();
    var created := store.Create(a, idA);
    listed := store.List();
    deleted := store.Delete(idA);
    got := store.Get(idA);
    again := store.Delete(idA);
  }
}
