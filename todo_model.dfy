/** The record built for every TODO comment found. */
module Model {
  import opened Common
  import opened Dates

  /** An immutable record: who it is for, when it is due (`None` where the Java
      field is null, the only field that may be), and where the comment starts.
      The line and column are whatever the extractor computed; nothing checks them. */
  datatype TodoModel = TodoModel(
    assignee: string,
    dueDate: Option<LocalDate>,
    filePath: string,
    lineNumber: int,
    columnNumber: int)
}
