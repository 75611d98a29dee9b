/**
 * Wire representation of todos and tasks (`TodoDto`, `TaskDto`), together
 * with the `@NotBlank` rule written out as a predicate.
 */
module Dto {
  import opened Wrappers

  /** A task on the wire: no id and no owner, so task identity never leaves the server. */
  datatype TaskDto = TaskDto(name: string, description: Option<string>)
  {
    /** `@field:NotBlank` on `name`. Nothing enforces it, since `tasks` carries no `@Valid`. */
    predicate IsValid() { NotBlank(name) }
  }

  /**
   * A todo on the wire. `id == None` means "not yet created"; `tasks` may be
   * explicitly null (`None`). Dafny datatype equality is structural over the
   * four fields, as Kotlin's data-class equality is.
   */
  datatype TodoDto = TodoDto(id: Option<int>, name: string, description: Option<string>, tasks: Option<seq<TaskDto>>)
  {
    /** `@NotBlank` on `name`: what request validation demands before the service is called. */
    predicate IsValid() { NotBlank(name) }
  }

  /** The primary constructor with `tasks` omitted: it defaults to the empty list. */
  function NewTodoDto(id: Option<int>, name: string, description: Option<string>): (d: TodoDto)
    ensures d.id == id && d.name == name && d.description == description
    ensures d.tasks == Some([])
  {
    TodoDto(id, name, description, Some([]))
  }

  /** The characters `String.trim` strips: every code point up to and including U+0020. */
  predicate IsWhitespace(c: char) { c <= ' ' }

  /**
   * Bean Validation's `@NotBlank`: the string has at least one non-whitespace
   * character, that is, stripping its leading whitespace leaves something.
   */
  predicate NotBlank(s: string)
    ensures NotBlank(s) <==> TrimStart(s) != []
  {
    exists i :: 0 <= i < |s| && !IsWhitespace(s[i])
  }

  /** Leading whitespace removed. */
  function TrimStart(s: string): (r: string)
    ensures |r| <= |s| && r == s[|s| - |r|..]
    ensures r != [] ==> !IsWhitespace(r[0])
    ensures forall i :: 0 <= i < |s| - |r| ==> IsWhitespace(s[i])
  {
    if s != [] && IsWhitespace(s[0]) then TrimStart(s[1..]) else s
  }

  /** Trailing whitespace removed. */
  function TrimEnd(s: string): (r: string)
    ensures |r| <= |s| && r == s[..|r|]
    ensures r != [] ==> !IsWhitespace(r[|r| - 1])
    ensures forall i :: |r| <= i < |s| ==> IsWhitespace(s[i])
  {
    if s != [] && IsWhitespace(s[|s| - 1]) then TrimEnd(s[..|s| - 1]) else s
  }

  /** Java's `String.trim`: whitespace removed at both ends. */
  function Trim(s: string): (r: string)
  {
    TrimEnd(TrimStart(s))
  }

  /**
   * The validator's test `value.trim().length() > 0` and "some character is
   * not whitespace" are the same rule.
   */
  lemma {:induction false} NotBlankIffTrimNonEmpty(s: string)
    ensures NotBlank(s) <==> |Trim(s)| > 0
  {
    var t := TrimStart(s);
    if NotBlank(s) {
      var i :| 0 <= i < |s| && !IsWhitespace(s[i]);
      assert |s| - |t| <= i;
      assert t != [];
    }
    if |Trim(s)| > 0 {
      assert t != [] && t[0] == s[|s| - |t|];
    }
  }

  /** An empty name, as in the rejected requests, is blank. */
  lemma EmptyNameIsInvalid(id: Option<int>, description: Option<string>, tasks: Option<seq<TaskDto>>)
    ensures !TodoDto(id, "", description, tasks).IsValid()
  {
  }
}
