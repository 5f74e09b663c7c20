/** The files the station scripts read and write, by path, with the `shutil`/`pathlib`
    operations they use. A file's text is its decoded content. */
module Disk {

  class Files {
    var contents: map<string, string>

    constructor (init: map<string, string>)
      ensures contents == init
    {
      contents := init;
    }

    /** `open(path, "w").write(text)` */
    method Write(path: string, text: string)
      modifies this
      ensures contents == old(contents)[path := text]
    {
      contents := contents[path := text];
    }

    /** `shutil.copy(source, target)` / `shutil.copy2(source, target)` */
    method Copy(source: string, target: string)
      requires source in contents
      modifies this
      ensures contents == old(contents)[target := old(contents)[source]]
    {
      contents := contents[target := contents[source]];
    }

    /** `Path(source).rename(target)` */
    method Rename(source: string, target: string)
      requires source in contents
      modifies this
      ensures contents == (old(contents) - {source})[target := old(contents)[source]]
    {
      contents := (contents - {source})[target := contents[source]];
    }
  }
}
