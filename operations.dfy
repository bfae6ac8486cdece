/**
 * The operation classes of the upgrader as values: a name, the REPLACE
 * table of rules applied in sequence, and whether a changed text needs the
 * compatibility header (upgrade_pythoncapi.py:66-285).
 */
module Operations {
  import opened Patterns

  datatype Operation = Operation(name: string, replace: seq<Rule>, needCompat: bool)

  const PySetType := Operation("Py_SET_TYPE", [CallAssign("Py_TYPE", "Py_SET_TYPE"), SetMember("ob_type", "Py_SET_TYPE")], true)
  const PySetSize := Operation("Py_SET_SIZE", [CallAssign("Py_SIZE", "Py_SET_SIZE"), SetMember("ob_size", "Py_SET_SIZE")], true)
  const PySetRefcnt := Operation("Py_SET_REFCNT", [CallAssign("Py_REFCNT", "Py_SET_REFCNT"), SetMember("ob_refcnt", "Py_SET_REFCNT")], true)
  const PyType := Operation("Py_TYPE", [GetMember("ob_type", "Py_TYPE")], false)
  const PySize := Operation("Py_SIZE", [GetMember("ob_size", "Py_SIZE")], false)
  const PyRefcnt := Operation("Py_REFCNT", [GetMember("ob_refcnt", "Py_REFCNT")], false)
  const PyObjectNew := Operation("PyObject_NEW", [
    Rename("PyObject_NEW", "PyObject_New"),
    Rename("PyObject_NEW_VAR", "PyObject_NewVar")], false)
  const PyMemMalloc := Operation("PyMem_MALLOC", [
    Rename("PyMem_MALLOC", "PyMem_Malloc"),
    Rename("PyMem_REALLOC", "PyMem_Realloc"),
    Rename("PyMem_FREE", "PyMem_Free"),
    Rename("PyMem_Del", "PyMem_Free"),
    Rename("PyMem_DEL", "PyMem_Free")], false)
  const PyObjectMalloc := Operation("PyObject_MALLOC", [
    Rename("PyObject_MALLOC", "PyObject_Malloc"),
    Rename("PyObject_REALLOC", "PyObject_Realloc"),
    Rename("PyObject_FREE", "PyObject_Free"),
    Rename("PyObject_Del", "PyObject_Free"),
    Rename("PyObject_DEL", "PyObject_Free")], false)
  const PyFrameGetBack := Operation("PyFrame_GetBack", [GetMember("f_back", "_PyFrame_GetBackBorrow")], true)
  const PyFrameGetCode := Operation("PyFrame_GetCode", [GetMember("f_code", "_PyFrame_GetCodeBorrow")], true)
  const PyThreadStateGetInterpreter :=
    Operation("PyThreadState_GetInterpreter", [GetMember("interp", "PyThreadState_GetInterpreter")], true)
  const PyThreadStateGetFrame :=
    Operation("PyThreadState_GetFrame", [GetMember("frame", "_PyThreadState_GetFrameBorrow")], true)

  /** OPERATIONS: every operation, in the order the upgrader runs them (the setters before the getters). */
  const AllOperations: seq<Operation> := [
    PySetType, PySetSize, PySetRefcnt,
    PyType, PySize, PyRefcnt,
    PyObjectNew, PyMemMalloc, PyObjectMalloc,
    PyFrameGetBack, PyFrameGetCode,
    PyThreadStateGetInterpreter, PyThreadStateGetFrame]

  function Names(ops: seq<Operation>): (names: seq<string>)
    ensures |names| == |ops|
    ensures forall k :: 0 <= k < |ops| ==> names[k] == ops[k].name
  {
    if ops == [] then [] else Names(ops[..|ops| - 1]) + [ops[|ops| - 1].name]
  }

  /** No two operations have the same name. */
  ghost predicate DistinctNames(ops: seq<Operation>) {
    forall i, j :: 0 <= i < j < |ops| ==> ops[i].name != ops[j].name
  }

  lemma AllOperationsDistinct()
    ensures |AllOperations| == 13
    ensures DistinctNames(AllOperations)
  {
  }

  /** The substitutions of a REPLACE table applied one after the other, as the loop of Operation.patch does. */
  function Rewrite(rules: seq<Rule>, content: string): string
  {
    if rules == [] then content else Sub(rules[|rules| - 1], Rewrite(rules[..|rules| - 1], content))
  }

  /** Every operation's rewrites, one operation after the other, with no header added. */
  function RewriteAll(ops: seq<Operation>, content: string): string
  {
    if ops == [] then content else Rewrite(ops[|ops| - 1].replace, RewriteAll(ops[..|ops| - 1], content))
  }
}
