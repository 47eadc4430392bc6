/** Property lookup on a JavaScript object literal used as a table:
    `table[key]` finds the literal's own keys, and otherwise the members
    every object inherits from `Object.prototype`. */
module Records {
  import opened Strings

  /** What `table[key]` yields: an own string value, an inherited member
      (a function, or the prototype object for `__proto__`), or
      `undefined`. */
  datatype Lookup = Own(value: string) | Inherited(member: string) | Missing

  /** The members of `Object.prototype`. */
  const PrototypeMembers: seq<string> := [
    "constructor", "__proto__", "hasOwnProperty", "isPrototypeOf",
    "propertyIsEnumerable", "toLocaleString", "toString", "valueOf",
    "__defineGetter__", "__defineSetter__", "__lookupGetter__", "__lookupSetter__"
  ]

  /** `table[key]`. */
  function RecordGet(table: map<string, string>, key: string): (r: Lookup)
    ensures r.Own? <==> key in table
    ensures r.Own? ==> r.value == table[key]
    ensures r.Inherited? <==> key !in table && key in PrototypeMembers
  {
    if key in table then Own(table[key])
    else if key in PrototypeMembers then Inherited(key)
    else Missing
  }

  lemma ConstructorIsLowerCase()
    ensures ToLower("constructor") == "constructor"
  {
    var s := "constructor";
    assert forall i :: 0 <= i < |s| ==> LowerChar(s[i]) == s[i];
  }

  /** The lower-cased extension of `x.constructor` names a member of
      `Object.prototype`. */
  lemma ConstructorExtension()
    ensures ToLower(LastPiece("x.constructor", '.')) == "constructor"
  {
    assert "x.constructor" == "x" + ['.'] + "constructor";
    LastPieceAfter("x", "constructor", '.');
    LastPieceWhole("constructor", '.');
    ConstructorIsLowerCase();
  }
}
