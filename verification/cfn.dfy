/** The pieces of cfn/cfn.go the core needs: the stack operation kind and the
    change-action glyph table. Everything else in that file is remote calls. */
module Cfn {

  /** The kind of stack operation (`cfn.StackOperation`). */
  datatype StackOperation = Create | Update | Delete

  /** The lower-case string value each operation carries in Go. */
  function OperationName(op: StackOperation): string
  {
    match op
    case Create => "create"
    case Update => "update"
    case Delete => "delete"
  }

  /** A change-set entry's action (`cloudformation.ChangeAction`).
      `NoAction` is Go's zero value, the empty string, which every
      event-sourced display row carries. */
  datatype ChangeAction = Add | Modify | Remove | NoAction

  /** The string value of each action. */
  function ActionName(a: ChangeAction): string
  {
    match a
    case Add => "Add"
    case Modify => "Modify"
    case Remove => "Remove"
    case NoAction => ""
  }

  /** `ChangeSetASCII[a]`: `+` for Add, `-` for Remove, `↻` for Modify; a key
      missing from the Go map reads as the empty string. */
  function ChangeSetAscii(a: ChangeAction): (glyph: string)
    ensures |glyph| <= 1
    ensures glyph == "" <==> a == NoAction
  {
    match a
    case Add => "+"
    case Remove => "-"
    case Modify => "\U{21BB}"
    case NoAction => ""
  }

  /** The glyph table tells the three real actions apart. */
  lemma ChangeSetAsciiInjective(a: ChangeAction, b: ChangeAction)
    requires ChangeSetAscii(a) == ChangeSetAscii(b)
    ensures a == b
  {
  }
}
