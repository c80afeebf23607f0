/** A user's chat sessions: the Python dict from session name to transcript,
    with the insertion order of its keys, and the dict operations the app
    applies to it. */
module Sessions {

  datatype Role = User | Assistant

  /** One `{"role": ..., "content": ...}` entry of a transcript. */
  datatype Message = Message(role: Role, content: string)

  type Transcript = seq<Message>

  /** The sessions dict: the names in key order, and the transcript of each. */
  datatype Table = Table(names: seq<string>, chats: map<string, Transcript>)

  ghost predicate Distinct(names: seq<string>) {
    forall i, j :: 0 <= i < j < |names| ==> names[i] != names[j]
  }

  /** Each key appears once in the order, and the order lists exactly the keys. */
  ghost predicate Valid(t: Table) {
    && Distinct(t.names)
    && (forall i :: 0 <= i < |t.names| ==> t.names[i] in t.chats)
    && (forall k :: k in t.chats ==> k in t.names)
  }

  /** `{}` */
  const Empty: Table := Table([], map[])

  /** `names` without `k`, the others in their order. */
  function Erase(names: seq<string>, k: string): (r: seq<string>)
    ensures |r| <= |names|
  {
    if names == [] then []
    else if names[0] == k then Erase(names[1..], k)
    else [names[0]] + Erase(names[1..], k)
  }

  /** Erasing removes `k` and keeps every other name. */
  lemma {:induction false} EraseMembers(names: seq<string>, k: string)
    ensures forall n :: n in Erase(names, k) <==> n in names && n != k
  {
    if names != [] {
      EraseMembers(names[1..], k);
      assert names == [names[0]] + names[1..];
    }
  }

  /** Erasing a name that is not there changes nothing. */
  lemma {:induction false} EraseAbsent(names: seq<string>, k: string)
    requires k !in names
    ensures Erase(names, k) == names
  {
    if names != [] {
      EraseAbsent(names[1..], k);
      assert names == [names[0]] + names[1..];
    }
  }

  /** Erasing keeps a list free of repeats. */
  lemma {:induction false} EraseDistinct(names: seq<string>, k: string)
    requires Distinct(names)
    ensures Distinct(Erase(names, k))
  {
    if names != [] {
      EraseDistinct(names[1..], k);
      EraseMembers(names[1..], k);
      var rest := Erase(names[1..], k);
      if names[0] != k {
        forall j | 0 <= j < |rest| ensures rest[j] != names[0] {
          assert rest[j] in names[1..];
          var i :| 0 <= i < |names[1..]| && names[1..][i] == rest[j];
          assert names[i + 1] == rest[j];
        }
        assert Erase(names, k) == [names[0]] + rest;
      }
    }
  }

  /** In a list without repeats, erasing `k` cuts it out at its one position. */
  lemma {:induction false} EraseAt(names: seq<string>, p: nat)
    requires Distinct(names) && p < |names|
    ensures Erase(names, names[p]) == names[..p] + names[p + 1..]
  {
    if p > 0 {
      EraseAt(names[1..], p - 1);
      assert names[1..][..p - 1] == names[1..p];
      assert names[1..][p..] == names[p + 1..];
    } else {
      assert names[0] !in names[1..];
      EraseAbsent(names[1..], names[0]);
    }
  }

  /** `d[k] = v`: a new key goes last, an existing key keeps its place and
      its old transcript is replaced. */
  function Assign(t: Table, k: string, v: Transcript): (r: Table)
    requires Valid(t)
    ensures Valid(r)
    ensures r.chats == t.chats[k := v]
    ensures r.names == if k in t.chats then t.names else t.names + [k]
  {
    Table(if k in t.chats then t.names else t.names + [k], t.chats[k := v])
  }

  /** Writing a key twice leaves only the second value. */
  lemma UpdateTwice(m: map<string, Transcript>, k: string, a: Transcript, b: Transcript)
    ensures m[k := a][k := b] == m[k := b]
  {
  }

  /** `del d[k]` (and the removal half of `d.pop(k)`). */
  function Remove(t: Table, k: string): (r: Table)
    requires Valid(t) && k in t.chats
    ensures Valid(r)
    ensures r.chats == t.chats - {k}
    ensures r.names == Erase(t.names, k)
    ensures |r.chats| == |t.chats| - 1
  {
    RemoveValid(t, k);
    Table(Erase(t.names, k), t.chats - {k})
  }

  lemma RemoveValid(t: Table, k: string)
    requires Valid(t) && k in t.chats
    ensures Valid(Table(Erase(t.names, k), t.chats - {k}))
    ensures |t.chats - {k}| == |t.chats| - 1
  {
    var e := Erase(t.names, k);
    var m := t.chats - {k};
    EraseDistinct(t.names, k);
    EraseMembers(t.names, k);
    forall i | 0 <= i < |e| ensures e[i] in m {
      assert e[i] in e;
    }
    forall n | n in m ensures n in e {
    }
    MapRemoveSize(t.chats, k);
  }

  /** Dropping a present key leaves one key fewer. */
  lemma MapRemoveSize(m: map<string, Transcript>, k: string)
    requires k in m
    ensures |m - {k}| == |m| - 1
  {
    assert (m - {k}).Keys == m.Keys - {k};
  }

  /** `d[new_name] = d.pop(k)`: the pop runs first, so a fresh `new_name` goes last,
      while an existing `new_name` keeps its place and loses its transcript. */
  function Rename(t: Table, k: string, newName: string): (r: Table)
    requires Valid(t) && k in t.chats
    ensures Valid(r)
    ensures r.chats == (t.chats - {k})[newName := t.chats[k]]
    ensures newName !in t.chats || newName == k ==> r.names == Erase(t.names, k) + [newName]
    ensures newName in t.chats && newName != k ==> r.names == Erase(t.names, k)
    ensures newName in r.chats && (newName != k ==> k !in r.chats)
  {
    Assign(Remove(t, k), newName, t.chats[k])
  }

  /** Renaming onto another existing session discards that session's
      transcript: one session fewer, nothing reported. */
  lemma RenameOntoExisting(t: Table, k: string, newName: string)
    requires Valid(t) && k in t.chats && newName in t.chats && newName != k
    ensures Rename(t, k, newName).chats.Keys == t.chats.Keys - {k}
    ensures |Rename(t, k, newName).chats| == |t.chats| - 1
  {
    var r := Rename(t, k, newName);
    assert r.chats.Keys == t.chats.Keys - {k};
    assert |r.chats.Keys| == |t.chats.Keys| - 1;
  }

  /** Renaming to a fresh name and back restores every transcript; the
      session moves to the end of the order. */
  lemma RenameBack(t: Table, k: string, newName: string)
    requires Valid(t) && k in t.chats && newName !in t.chats
    ensures Rename(Rename(t, k, newName), newName, k).chats == t.chats
    ensures Rename(Rename(t, k, newName), newName, k).names == Erase(t.names, k) + [k]
  {
    RenameBackChats(t, k, newName);
    RenameBackOrder(t, k, newName);
  }

  lemma RenameBackChats(t: Table, k: string, newName: string)
    requires Valid(t) && k in t.chats && newName !in t.chats
    ensures Rename(Rename(t, k, newName), newName, k).chats == t.chats
  {
    var u := Rename(t, k, newName);
    var w := Rename(u, newName, k);
    MapRenameBack(t.chats, k, newName, u.chats, w.chats);
  }

  /** The map half of renaming there and back. */
  lemma MapRenameBack(m: map<string, Transcript>, k: string, newName: string,
                      u: map<string, Transcript>, w: map<string, Transcript>)
    requires k in m && newName !in m
    requires u == (m - {k})[newName := m[k]]
    requires w == (u - {newName})[k := u[newName]]
    ensures w == m
  {
    assert w.Keys == m.Keys;
  }

  lemma RenameBackOrder(t: Table, k: string, newName: string)
    requires Valid(t) && k in t.chats && newName !in t.chats
    ensures Rename(Rename(t, k, newName), newName, k).names == Erase(t.names, k) + [k]
  {
    var u := Rename(t, k, newName);
    var e := Erase(t.names, k);
    assert u.names == e + [newName];
    assert newName !in e by {
      EraseMembers(t.names, k);
    }
    EraseLast(e, newName);
    assert k !in u.chats;
  }

  /** Erasing the name just appended to a list without it restores the list. */
  lemma {:induction false} EraseLast(names: seq<string>, x: string)
    requires x !in names
    ensures Erase(names + [x], x) == names
  {
    if names == [] {
      assert Erase([x], x) == Erase([], x);
    } else {
      assert (names + [x])[1..] == names[1..] + [x];
      EraseLast(names[1..], x);
      assert names == [names[0]] + names[1..];
    }
  }
}
