/** Evas_Stringshare: interned, reference-counted strings. This module holds the table as a map
    from strings to shares; EvasStringshareHeap refines it and EvasStringshareRuns says what
    holds of every run. */
module EvasStringshare {
  import opened CStrings

  /** A live string: its handle and how often it has been handed out. */
  datatype Share<H> = Share(handle: H, count: int)

  type Shares<H> = map<CString, Share<H>>

  /** What evas_stringshare_add leaves; `made` is the element allocated for an unknown string. */
  function Adding<H>(m: Shares<H>, str: CString, memory: bool, made: H): Shares<H> {
    if str in m then m[str := m[str].(count := m[str].count + 1)]
    else if memory then m[str := Share(made, 1)]
    else m
  }

  /** What evas_stringshare_del leaves. */
  function Deleting<H>(m: Shares<H>, str: CString): Shares<H>
    requires str in m
  {
    if m[str].count == 1 then m - {str} else m[str := m[str].(count := m[str].count - 1)]
  }
}
