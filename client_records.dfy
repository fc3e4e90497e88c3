/** The records the client's stores hold, as the pages read them. Dates are
    millisecond timestamps. Besides the fields the modelled logic reads, each
    record keeps its id and the fields a card displays, so that two records
    with equal dates stay distinct; the other fields are omitted. */
module ClientRecords {
  datatype Task = Task(id: string, title: string, dueDate: int)

  datatype NoteCard = NoteCard(id: string, title: string, content: string, updatedAt: int)

  datatype LectureCard = LectureCard(id: string, moduleName: string, title: string, recordedAt: int)
}
