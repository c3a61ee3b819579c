/** The memo record shared by the reader, the writer and the exporter, and the
    two memo templates the model covers. */
module Memos {
  import opened Text

  /** The `memoType` field: `JOURNAL`, `TASK-TODO`, `TASK-DONE` or `TASK-<mark>`
      for any other checkbox mark. */
  datatype MemoType = Journal | TaskTodo | TaskDone | TaskOther(mark: string)

  /** The text the source stores in `memoType`. */
  function TypeName(t: MemoType): (r: string)
    ensures t == Journal <==> r == "JOURNAL"
    ensures t != Journal ==> StartsWith(r, "TASK-")
  {
    match t
    case Journal => "JOURNAL"
    case TaskTodo => "TASK-TODO"
    case TaskDone => "TASK-DONE"
    case TaskOther(mark) => assert ("TASK-" + mark)[..5] == "TASK-" && ("TASK-" + mark)[0] == 'T'; "TASK-" + mark
  }

  /** A memo as the engine builds it (`user_id`, `linkId` and `deletedAt` are
      constants and left out). */
  datatype Memo = Memo(
    id: string,
    content: string,
    createdAt: string,
    updatedAt: string,
    memoType: MemoType,
    hasId: string,
    path: string)

  /** The `DefaultMemoComposition` setting: the empty template, which takes the
      fixed `HH:mm content` path, or the default `{TIME} {CONTENT}`. */
  datatype Composition = NoTemplate | TimeContent

  /** The memo body after the bullet: `time + ' ' + content` for the empty
      template; for `{TIME} {CONTENT}` the two global replaces, the second of
      which expands `$` patterns of the content (the matched text is
      `{CONTENT}`, the text before it is `time + ' '`, after it nothing).
      `time` is `HH:mm` or `Invalid date`, which hold neither `$` nor a
      placeholder. */
  function ComposeBody(tpl: Composition, time: string, content: string): string
  {
    match tpl
    case NoTemplate => time + " " + content
    case TimeContent => time + " " + ExpandReplacement(content, "{CONTENT}", time + " ", "")
  }

  /** Content without `$` comes out of both templates as `time + ' ' + content`. */
  lemma ComposePlain(tpl: Composition, time: string, content: string)
    requires '$' !in content
    ensures ComposeBody(tpl, time, content) == time + " " + content
  {
    ExpandPlain(content, "{CONTENT}", time + " ", "");
  }
}
