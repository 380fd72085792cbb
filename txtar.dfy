/** The txtar archive format's parsed form, shared by the tools that read and write archives. */
module Txtar {

  /** One file of a txtar archive: its slash-separated name and its bytes. */
  datatype ArchiveFile = ArchiveFile(name: string, data: string)

  /** A parsed txtar archive: the leading comment and the files in order. */
  datatype Archive = Archive(comment: string, files: seq<ArchiveFile>)
}
