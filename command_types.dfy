/** The command kinds. CommandType.java is not part of this model; these are the
    constants the command classes refer to. */
module CommandTypes {

  datatype CommandType = TODO | DEADLINE | EVENT | DELETE | DONE

  predicate IsLowerLetter(c: char) {
    'a' <= c <= 'z'
  }

  /** commandType.toString().toLowerCase(): a non-empty word of lower-case letters. */
  function LowerName(k: CommandType): (r: string)
    ensures |r| > 0 && forall i :: 0 <= i < |r| ==> IsLowerLetter(r[i])
  {
    match k
    case TODO => "todo"
    case DEADLINE => "deadline"
    case EVENT => "event"
    case DELETE => "delete"
    case DONE => "done"
  }

  /** Distinct kinds have distinct names, so the name in an exception identifies the command. */
  lemma LowerNameInjective(a: CommandType, b: CommandType)
    ensures LowerName(a) == LowerName(b) ==> a == b
  {
    if a != b {
      assert |LowerName(a)| != |LowerName(b)| || LowerName(a)[0] != LowerName(b)[0];
    }
  }
}
