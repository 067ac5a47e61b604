/** The values the todo-list page works with: a row of the "Todos" table, the
    requests the page sends, the outcome of a remote call, the blank-text check
    of `addTodo`, and the pure list updates the handlers apply to `todos`. */
module Todos {

  datatype Option<T> = None | Some(value: T)

  /** The server-assigned creation time. The page only displays it, so the
      model never inspects it: it is an opaque value. */
  datatype Timestamp = Timestamp(stamp: nat)

  /** One row of the "Todos" table. */
  datatype Todo = Todo(id: int, createdAt: Timestamp, text: string, isCompleted: bool)

  /** The payload of the insert request `{ text, isCompleted }`. */
  datatype NewTodo = NewTodo(text: string, isCompleted: bool)

  /** The update request: rows matching `{ id: matchId }` get `{ isCompleted }`. */
  datatype StatusPatch = StatusPatch(matchId: int, isCompleted: bool)

  /** The outcome of one remote call: an error with its message, or the data
      returned alongside no error (which may be null, hence the Option). */
  datatype Reply<T> = Failed(message: string) | Succeeded(data: Option<T>)

  /** The `data && data.length > 0` test of the update and delete handlers. */
  predicate HasRows(reply: Reply<seq<Todo>>)
  {
    reply.Succeeded? && reply.data.Some? && |reply.data.value| > 0
  }

  // ---------------------------------------------------------------------------
  // The blank-text check `inputValue.trim() === ""`
  // ---------------------------------------------------------------------------

  /** The characters that `String.prototype.trim` strips: the ECMAScript
      WhiteSpace set (tab, vertical tab, form feed, space, no-break space,
      zero-width no-break space and the other Space_Separator characters) and
      the LineTerminator set (line feed, carriage return, line and paragraph
      separators). */
  predicate IsWhitespace(c: char)
  {
    c == '\t' || c == '\n' || c == '\U{B}' || c == '\U{C}' || c == '\r' || c == ' '
    || c == '\U{A0}' || c == '\U{1680}' || ('\U{2000}' <= c <= '\U{200A}')
    || c == '\U{2028}' || c == '\U{2029}' || c == '\U{202F}' || c == '\U{205F}'
    || c == '\U{3000}' || c == '\U{FEFF}'
  }

  /** Every character of `s` is whitespace (the empty string included). */
  predicate IsBlank(s: string)
  {
    forall i :: 0 <= i < |s| ==> IsWhitespace(s[i])
  }

  /** Drops the leading whitespace: the result is the suffix of `s` that starts
      at its first non-whitespace character. */
  function TrimStart(s: string): (r: string)
    ensures |r| <= |s| && r == s[|s| - |r|..]
    ensures forall i :: 0 <= i < |s| - |r| ==> IsWhitespace(s[i])
    ensures r == [] || !IsWhitespace(r[0])
  {
    if s != [] && IsWhitespace(s[0]) then TrimStart(s[1..]) else s
  }

  /** Drops the trailing whitespace: the result is the prefix of `s` that ends
      at its last non-whitespace character. */
  function TrimEnd(s: string): (r: string)
    ensures |r| <= |s| && r == s[..|r|]
    ensures forall i :: |r| <= i < |s| ==> IsWhitespace(s[i])
    ensures r == [] || !IsWhitespace(r[|r| - 1])
  {
    if s != [] && IsWhitespace(s[|s| - 1]) then TrimEnd(s[..|s| - 1]) else s
  }

  /** `s.trim()`: neither end of the result is whitespace. */
  function Trim(s: string): (r: string)
    ensures |r| <= |s|
    ensures r == [] || (!IsWhitespace(r[0]) && !IsWhitespace(r[|r| - 1]))
  {
    TrimEnd(TrimStart(s))
  }

  /** An all-whitespace string trims away completely at its start. */
  lemma {:induction false} TrimStartOfBlank(s: string)
    requires IsBlank(s)
    ensures TrimStart(s) == []
  {
    if s != [] {
      assert IsWhitespace(s[0]);
      assert IsBlank(s[1..]) by {
        forall i | 0 <= i < |s[1..]| ensures IsWhitespace(s[1..][i]) {
          assert s[1..][i] == s[i + 1];
        }
      }
      TrimStartOfBlank(s[1..]);
    }
  }

  /** A string with a non-whitespace character does not trim away at its end. */
  lemma TrimEndKeepsNonWhitespace(s: string, k: nat)
    requires k < |s| && !IsWhitespace(s[k])
    ensures TrimEnd(s) != []
  {
    var r := TrimEnd(s);
    assert !(|r| <= k);
  }

  /** A non-whitespace character of `s` survives in `TrimStart(s)`. */
  lemma TrimStartKeepsNonWhitespace(s: string, k: nat)
    requires k < |s| && !IsWhitespace(s[k])
    ensures TrimStart(s) != []
  {
    var t := TrimStart(s);
    var m := |s| - |t|;
    assert !(k < m);
    assert t[k - m] == s[k];
  }

  /** `s.trim() === ""` holds exactly for the all-whitespace strings. */
  lemma TrimEmptyIffBlank(s: string)
    ensures Trim(s) == [] <==> IsBlank(s)
  {
    if IsBlank(s) {
      TrimStartOfBlank(s);
    } else {
      var k :| 0 <= k < |s| && !IsWhitespace(s[k]);
      TrimStartKeepsNonWhitespace(s, k);
      var t := TrimStart(s);
      TrimEndKeepsNonWhitespace(t, 0);
    }
  }

  // ---------------------------------------------------------------------------
  // The list updates: `todos.map(...)` and `todos.filter(...)`
  // ---------------------------------------------------------------------------

  /** No two entries share an `id`. */
  predicate DistinctIds(todos: seq<Todo>)
  {
    forall i, j :: 0 <= i < j < |todos| ==> todos[i].id != todos[j].id
  }

  /** The number of entries whose `id` is `id`. */
  function CountId(todos: seq<Todo>, id: int): (n: nat)
    ensures n <= |todos|
    ensures n == 0 <==> forall t :: t in todos ==> t.id != id
  {
    if todos == [] then 0
    else (if todos[0].id == id then 1 else 0) + CountId(todos[1..], id)
  }

  /** `todos.map((todo) => (todo.id === id ? row : todo))`: every entry with
      that `id` becomes `row`, every other entry stays where it is. */
  function ReplaceById(todos: seq<Todo>, id: int, row: Todo): (r: seq<Todo>)
    ensures |r| == |todos|
    ensures forall i :: 0 <= i < |todos| && todos[i].id == id ==> r[i] == row
    ensures forall i :: 0 <= i < |todos| && todos[i].id != id ==> r[i] == todos[i]
  {
    if todos == [] then []
    else [if todos[0].id == id then row else todos[0]] + ReplaceById(todos[1..], id, row)
  }

  /** `todos.filter((todo) => todo.id !== id)`: the entries with another `id`,
      one fewer for each entry that had this one. */
  function RemoveById(todos: seq<Todo>, id: int): (r: seq<Todo>)
    ensures |r| == |todos| - CountId(todos, id)
    ensures forall t :: t in r <==> t in todos && t.id != id
  {
    if todos == [] then []
    else if todos[0].id == id then RemoveById(todos[1..], id)
    else [todos[0]] + RemoveById(todos[1..], id)
  }

  /** Filtering distributes over concatenation: the kept entries stay in their
      original relative order. */
  lemma {:induction false} RemoveByIdAppend(a: seq<Todo>, b: seq<Todo>, id: int)
    ensures RemoveById(a + b, id) == RemoveById(a, id) + RemoveById(b, id)
  {
    if a != [] {
      assert (a + b)[0] == a[0];
      assert (a + b)[1..] == a[1..] + b;
      RemoveByIdAppend(a[1..], b, id);
      if a[0].id != id {
        var ra, rb := RemoveById(a[1..], id), RemoveById(b, id);
        assert [a[0]] + (ra + rb) == ([a[0]] + ra) + rb;
      }
    } else {
      assert a + b == b;
    }
  }

  /** Deleting an `id` that no entry has leaves the list as it was. */
  lemma {:induction false} RemoveByIdAbsent(todos: seq<Todo>, id: int)
    requires forall t :: t in todos ==> t.id != id
    ensures RemoveById(todos, id) == todos
  {
    if todos != [] {
      assert todos[0] in todos;
      assert forall t :: t in todos[1..] ==> t in todos;
      RemoveByIdAbsent(todos[1..], id);
      assert [todos[0]] + todos[1..] == todos;
    }
  }

  /** Deleting the same `id` twice is the same as deleting it once. */
  lemma RemoveByIdIdempotent(todos: seq<Todo>, id: int)
    ensures RemoveById(RemoveById(todos, id), id) == RemoveById(todos, id)
  {
    RemoveByIdAbsent(RemoveById(todos, id), id);
  }

  /** Dropping the first entry keeps the ids distinct. */
  lemma DistinctIdsTail(todos: seq<Todo>)
    requires todos != [] && DistinctIds(todos)
    ensures DistinctIds(todos[1..])
  {
    var tail := todos[1..];
    forall i, j | 0 <= i < j < |tail| ensures tail[i].id != tail[j].id {
      assert tail[i] == todos[i + 1] && tail[j] == todos[j + 1];
    }
  }

  /** Deleting keeps the ids distinct. */
  lemma {:induction false} RemoveByIdDistinct(todos: seq<Todo>, id: int)
    requires DistinctIds(todos)
    ensures DistinctIds(RemoveById(todos, id))
  {
    if todos != [] {
      var tail := todos[1..];
      DistinctIdsTail(todos);
      RemoveByIdDistinct(tail, id);
      var rest := RemoveById(tail, id);
      if todos[0].id != id {
        forall t | t in rest ensures t.id != todos[0].id {
          var k :| 0 <= k < |tail| && tail[k] == t;
          assert todos[k + 1] == t;
        }
        DistinctIdsCons(todos[0], rest);
      }
    }
  }

  /** Putting a row in front keeps the ids distinct when its `id` is new. */
  lemma DistinctIdsCons(row: Todo, todos: seq<Todo>)
    requires DistinctIds(todos)
    requires forall t :: t in todos ==> t.id != row.id
    ensures DistinctIds([row] + todos)
  {
    var r := [row] + todos;
    forall i, j | 0 <= i < j < |r| ensures r[i].id != r[j].id {
      assert r[j] == todos[j - 1] && todos[j - 1] in todos;
      if i > 0 {
        assert r[i] == todos[i - 1];
      }
    }
  }

  /** With distinct ids, deleting an `id` held at position `k` removes exactly
      that one entry and keeps all others in order. */
  lemma RemoveByIdUnique(todos: seq<Todo>, id: int, k: nat)
    requires DistinctIds(todos)
    requires k < |todos| && todos[k].id == id
    ensures RemoveById(todos, id) == todos[..k] + todos[k + 1..]
    ensures |RemoveById(todos, id)| == |todos| - 1
  {
    OthersLackId(todos, id, k);
    RemoveByIdSingle(todos, id, k);
  }

  /** When only position `k` holds `id`, deleting `id` removes that entry. */
  lemma RemoveByIdSingle(todos: seq<Todo>, id: int, k: nat)
    requires k < |todos| && todos[k].id == id
    requires forall t :: t in todos[..k] ==> t.id != id
    requires forall t :: t in todos[k + 1..] ==> t.id != id
    ensures RemoveById(todos, id) == todos[..k] + todos[k + 1..]
  {
    var before, x, after := todos[..k], todos[k], todos[k + 1..];
    assert todos == before + ([x] + after);
    assert RemoveById(before, id) == before by { RemoveByIdAbsent(before, id); }
    assert RemoveById(after, id) == after by { RemoveByIdAbsent(after, id); }
    assert RemoveById([x], id) == [] by { assert [x][1..] == []; }
    assert RemoveById([x] + after, id) == after by {
      RemoveByIdAppend([x], after, id);
      assert [] + after == after;
    }
    assert RemoveById(todos, id) == before + after by {
      RemoveByIdAppend(before, [x] + after, id);
    }
  }

  /** With distinct ids, the entries before and after the one holding `id`
      all have other ids. */
  lemma OthersLackId(todos: seq<Todo>, id: int, k: nat)
    requires DistinctIds(todos)
    requires k < |todos| && todos[k].id == id
    ensures forall t :: t in todos[..k] ==> t.id != id
    ensures forall t :: t in todos[k + 1..] ==> t.id != id
  {
    forall t | t in todos[..k] ensures t.id != id {
      var i :| 0 <= i < k && todos[..k][i] == t;
      assert todos[i] == t;
    }
    forall t | t in todos[k + 1..] ensures t.id != id {
      var i :| 0 <= i < |todos| - k - 1 && todos[k + 1..][i] == t;
      assert todos[k + 1 + i] == t;
    }
  }

  /** Replacing the same `id` with the same row twice is the same as once. */
  lemma ReplaceByIdIdempotent(todos: seq<Todo>, id: int, row: Todo)
    ensures ReplaceById(ReplaceById(todos, id, row), id, row) == ReplaceById(todos, id, row)
  {
    var once := ReplaceById(todos, id, row);
    var twice := ReplaceById(once, id, row);
    forall i | 0 <= i < |todos| ensures twice[i] == once[i] {
      if todos[i].id == id {
        assert once[i] == row;
      } else {
        assert once[i] == todos[i];
      }
    }
  }

  /** A returned row that keeps its `id` keeps the ids distinct, and with
      distinct ids exactly the one entry at position `k` is replaced. */
  lemma ReplaceByIdUnique(todos: seq<Todo>, id: int, row: Todo, k: nat)
    requires DistinctIds(todos)
    requires k < |todos| && todos[k].id == id
    requires row.id == id
    ensures ReplaceById(todos, id, row) == todos[k := row]
    ensures DistinctIds(ReplaceById(todos, id, row))
  {
    var r := ReplaceById(todos, id, row);
    forall i | 0 <= i < |todos| ensures r[i] == todos[k := row][i] {
      if i != k {
        assert todos[i].id != id;
      }
    }
  }

  /** Replacing an `id` that no entry has leaves the list as it was. */
  lemma ReplaceByIdAbsent(todos: seq<Todo>, id: int, row: Todo)
    requires forall t :: t in todos ==> t.id != id
    ensures ReplaceById(todos, id, row) == todos
  {
    var r := ReplaceById(todos, id, row);
    forall i | 0 <= i < |todos| ensures r[i] == todos[i] {
      assert todos[i] in todos;
    }
  }

  /** Appending a row keeps the ids distinct exactly when its `id` is new. */
  lemma AppendDistinct(todos: seq<Todo>, row: Todo)
    ensures DistinctIds(todos + [row]) <==> DistinctIds(todos) && CountId(todos, row.id) == 0
  {
    var r := todos + [row];
    if DistinctIds(r) {
      forall t | t in todos ensures t.id != row.id {
        var i :| 0 <= i < |todos| && todos[i] == t;
        assert r[i] == t && r[|todos|] == row;
      }
      forall i, j | 0 <= i < j < |todos| ensures todos[i].id != todos[j].id {
        assert r[i] == todos[i] && r[j] == todos[j];
      }
    }
    if DistinctIds(todos) && CountId(todos, row.id) == 0 {
      forall i, j | 0 <= i < j < |r| ensures r[i].id != r[j].id {
        if j == |todos| {
          assert r[i] == todos[i] && todos[i] in todos;
        } else {
          assert r[i] == todos[i] && r[j] == todos[j];
        }
      }
    }
  }
}
