/**
 * The keys the select reacts to. The component compares `event.code` against a table of
 * key-code strings (Select.tsx, `KeyCode`); only five entries of that table are ever acted
 * upon, so the table becomes a closed enumeration and every other code is `Other`.
 */
module Keys {

  datatype Key = Space | ArrowUp | ArrowDown | Enter | Escape | Other

  /** The `event.code` string that denotes a key the handlers act on. */
  function CodeOf(k: Key): (code: string)
    requires k != Other
  {
    match k
    case Space => "Space"
    case ArrowUp => "ArrowUp"
    case ArrowDown => "ArrowDown"
    case Enter => "Enter"
    case Escape => "Escape"
  }

  /** Maps a raw `event.code` to the key it denotes; codes no handler compares against are `Other`. */
  function KeyOfCode(code: string): (k: Key)
    ensures k != Other ==> CodeOf(k) == code
    ensures k == Other ==> forall k' :: k' != Other ==> CodeOf(k') != code
  {
    if code == "Space" then Space
    else if code == "ArrowUp" then ArrowUp
    else if code == "ArrowDown" then ArrowDown
    else if code == "Enter" then Enter
    else if code == "Escape" then Escape
    else Other
  }

  /** Reading back the code of a key gives the key: the table and the enumeration agree. */
  lemma CodeRoundTrip(k: Key)
    requires k != Other
    ensures KeyOfCode(CodeOf(k)) == k
  {
  }
}
