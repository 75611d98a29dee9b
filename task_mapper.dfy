/** `Task.toDto()` and `List<Task>.toDto()`. */
module TaskMapper {
  import opened Dto
  import opened Model

  /** The wire view of one task: name and description; id and owner are dropped. */
  function ToDto(t: Task): (d: TaskDto)
    reads t
    ensures d.name == t.name && d.description == t.description
  {
    TaskDto(t.name, t.description)
  }

  /** Element-wise translation of a task list, in order. */
  function ListToDto(ts: seq<Task>): (r: seq<TaskDto>)
    reads ts
    ensures |r| == |ts|
    ensures forall i :: 0 <= i < |ts| ==> r[i].name == ts[i].name && r[i].description == ts[i].description
  {
    if ts == [] then [] else [ToDto(ts[0])] + ListToDto(ts[1..])
  }

  /** The translation is determined by names and descriptions alone. */
  lemma ListToDtoEntries(ts: seq<Task>, dtos: seq<TaskDto>)
    requires |ts| == |dtos|
    requires forall i :: 0 <= i < |ts| ==> ts[i].name == dtos[i].name && ts[i].description == dtos[i].description
    ensures ListToDto(ts) == dtos
  {
    var r := ListToDto(ts);
    assert forall i :: 0 <= i < |ts| ==> r[i] == dtos[i];
  }

  /** Two tasks that differ only in identity or owner have the same wire view. */
  lemma ToDtoIgnoresIdentity(a: Task, b: Task)
    requires a.name == b.name && a.description == b.description
    ensures ToDto(a) == ToDto(b)
  {
  }

  /** The map is element-wise, so it distributes over concatenation. */
  lemma {:induction false} ListToDtoAppend(xs: seq<Task>, ys: seq<Task>)
    ensures ListToDto(xs + ys) == ListToDto(xs) + ListToDto(ys)
  {
    if xs != [] {
      assert (xs + ys)[1..] == xs[1..] + ys;
      ListToDtoAppend(xs[1..], ys);
    }
  }
}
