/**
 * The local command knowledge base and its first-match lookup.
 *
 * The table is an insertion-ordered dictionary from a Spanish phrase to the
 * macOS/Linux command, the Windows command and a description. A query is
 * lower-cased and stripped, and the first phrase (in table order) that
 * contains it as a substring answers it.
 */
module KnowledgeBase {
  import opened Wrappers
  import opened Text

  /** What the table stores for each phrase. */
  datatype Entry = Entry(mac: string, win: string, desc: string)

  /** The record shown to the user and saved as a favorite. */
  datatype Record = Record(nombre: string, mac: string, win: string, desc: string)

  type Table = seq<(string, Entry)>

  /** No phrase appears twice, as in a dictionary. */
  predicate UniqueKeys(table: Table) {
    forall i, j :: 0 <= i < j < |table| ==> table[i].0 != table[j].0
  }

  /** Files and folders. */
  const FileCommands: Table := [
      ("listar archivos", Entry("ls -la", "dir /a", "Lista todos los archivos, incluyendo los ocultos.")),
      ("crear carpeta", Entry("mkdir [nombre]", "mkdir [nombre]", "Crea un nuevo directorio.")),
      ("borrar carpeta", Entry("rm -rf [carpeta]", "rmdir /s /q [carpeta]", "⚠️ Elimina una carpeta y todo su contenido.")),
      ("mover archivo", Entry("mv [origen] [destino]", "move [origen] [destino]", "Mueve o renombra archivos.")),
      ("copiar archivo", Entry("cp [origen] [destino]", "copy [origen] [destino]", "Copia un archivo.")),
      ("buscar texto", Entry("grep -r '[texto]' .", "findstr /s /i '[texto]' *.*", "Busca texto dentro de archivos en la carpeta actual."))
    ]

  /** Network. */
  const NetworkCommands: Table := [
      ("mi ip", Entry("ifconfig | grep inet", "ipconfig", "Muestra tu configuración de red y dirección IP.")),
      ("ping", Entry("ping -c 4 [url]", "ping [url]", "Comprueba la conexión con un servidor.")),
      ("puertos abiertos", Entry("lsof -i -P | grep LISTEN", "netstat -an | findstr LISTENING", "Muestra qué puertos están escuchando conexiones.")),
      ("dns lookup", Entry("nslookup [dominio]", "nslookup [dominio]", "Consulta la IP asociada a un dominio.")),
      ("descargar archivo", Entry("curl -O [url]", "curl.exe -O [url]", "Descarga un archivo desde internet."))
    ]

  /** System. */
  const SystemCommands: Table := [
      ("uso disco", Entry("df -h", "wmic logicaldisk get size,freespace,caption", "Muestra el espacio libre en disco.")),
      ("uso memoria", Entry("top -l 1 | grep PhysMem", "systeminfo | findstr Memory", "Estado de la memoria RAM.")),
      ("matar proceso", Entry("kill -9 [PID]", "taskkill /F /PID [PID]", "Fuerza el cierre de un programa bloqueado.")),
      ("historial", Entry("history", "doskey /history", "Muestra los últimos comandos ejecutados.")),
      ("limpiar pantalla", Entry("clear", "cls", "Limpia la terminal.")),
      ("permisos", Entry("chmod 755 [archivo]", "icacls [archivo] /grant [usuario]:F", "Cambia los permisos de lectura/escritura."))
    ]

  /** Git. */
  const GitCommands: Table := [
      ("git status", Entry("git status", "git status", "Estado actual del repositorio.")),
      ("git commit", Entry("git commit -m 'mensaje'", "git commit -m 'mensaje'", "Guarda cambios con un mensaje.")),
      ("git push", Entry("git push origin main", "git push origin main", "Sube cambios al servidor remoto."))
    ]

  /** The built-in table, in its insertion order: the four sections one after another. */
  const Commands: Table := FileCommands + NetworkCommands + SystemCommands + GitCommands

  /** The table has 20 entries; it opens with the file section, followed by the network section. */
  lemma CommandsLayout()
    ensures |FileCommands| == 6 && |NetworkCommands| == 5 && |SystemCommands| == 6 && |GitCommands| == 3
    ensures |Commands| == 20
    ensures forall j :: 0 <= j < 6 ==> Commands[j] == FileCommands[j]
    ensures Commands[6] == NetworkCommands[0]
    ensures Commands == FileCommands + (NetworkCommands + SystemCommands + GitCommands)
  {
    assert Commands == FileCommands + (NetworkCommands + SystemCommands + GitCommands);
  }

  /** No phrase of `a` is a phrase of `b`. */
  predicate Disjoint(a: Table, b: Table) {
    forall i, j :: 0 <= i < |a| && 0 <= j < |b| ==> a[i].0 != b[j].0
  }

  /** Two tables with distinct phrases and no phrase in common form one with distinct phrases. */
  lemma UniqueConcat(a: Table, b: Table)
    requires UniqueKeys(a) && UniqueKeys(b) && Disjoint(a, b)
    ensures UniqueKeys(a + b)
  {
    forall i, j | 0 <= i < j < |a + b|
      ensures (a + b)[i].0 != (a + b)[j].0
    {
      if j < |a| {
        assert (a + b)[i] == a[i] && (a + b)[j] == a[j];
      } else if i < |a| {
        assert (a + b)[i] == a[i] && (a + b)[j] == b[j - |a|];
      } else {
        assert (a + b)[i] == b[i - |a|] && (a + b)[j] == b[j - |a|];
      }
    }
  }

  lemma DisjointConcat(a: Table, b: Table, c: Table)
    requires Disjoint(a, c) && Disjoint(b, c)
    ensures Disjoint(a + b, c)
  {
    forall i, j | 0 <= i < |a + b| && 0 <= j < |c|
      ensures (a + b)[i].0 != c[j].0
    {
      if i < |a| { assert (a + b)[i] == a[i]; } else { assert (a + b)[i] == b[i - |a|]; }
    }
  }

  /** The phrases of the file section, in order. */
  lemma FilePhrases()
    ensures Keys(FileCommands) == ["listar archivos", "crear carpeta", "borrar carpeta", "mover archivo", "copiar archivo", "buscar texto"]
  {
  }

  /** The phrases of the network section, in order. */
  lemma NetworkPhrases()
    ensures Keys(NetworkCommands) == ["mi ip", "ping", "puertos abiertos", "dns lookup", "descargar archivo"]
  {
  }

  /** The phrases of the system section, in order. */
  lemma SystemPhrases()
    ensures Keys(SystemCommands) == ["uso disco", "uso memoria", "matar proceso", "historial", "limpiar pantalla", "permisos"]
  {
  }

  /** The phrases of the git section, in order. */
  lemma GitPhrases()
    ensures Keys(GitCommands) == ["git status", "git commit", "git push"]
  {
  }

  predicate DistinctStrings(ks: seq<string>) {
    forall i, j :: 0 <= i < j < |ks| ==> ks[i] != ks[j]
  }

  predicate Apart(xs: seq<string>, ys: seq<string>) {
    forall i, j :: 0 <= i < |xs| && 0 <= j < |ys| ==> xs[i] != ys[j]
  }

  /**
   * The four phrase lists have no repeats and nothing in common.
   *
   * This lemma and the example lemmas below receive their literal strings as
   * parameters pinned by a `requires` rather than naming the constants in
   * their contracts: the verifier then reasons about one string per
   * parameter instead of re-expanding the whole table in every proof step.
   */
  lemma PhraseListsApart(f: seq<string>, n: seq<string>, s: seq<string>, g: seq<string>)
    requires f == ["listar archivos", "crear carpeta", "borrar carpeta", "mover archivo", "copiar archivo", "buscar texto"]
    requires n == ["mi ip", "ping", "puertos abiertos", "dns lookup", "descargar archivo"]
    requires s == ["uso disco", "uso memoria", "matar proceso", "historial", "limpiar pantalla", "permisos"]
    requires g == ["git status", "git commit", "git push"]
    ensures DistinctStrings(f) && DistinctStrings(n) && DistinctStrings(s) && DistinctStrings(g)
    ensures Apart(f, n) && Apart(f, s) && Apart(f, g) && Apart(n, s) && Apart(n, g) && Apart(s, g)
  {
  }

  lemma UniqueFromPhrases(t: Table)
    requires DistinctStrings(Keys(t))
    ensures UniqueKeys(t)
  {
    assert forall i :: 0 <= i < |t| ==> Keys(t)[i] == t[i].0;
  }

  lemma DisjointFromPhrases(a: Table, b: Table)
    requires Apart(Keys(a), Keys(b))
    ensures Disjoint(a, b)
  {
    assert forall i :: 0 <= i < |a| ==> Keys(a)[i] == a[i].0;
    assert forall j :: 0 <= j < |b| ==> Keys(b)[j] == b[j].0;
  }

  /** The built-in table has no phrase twice, as a dictionary literal guarantees. */
  lemma CommandsUniqueKeys()
    ensures UniqueKeys(Commands)
  {
    FilePhrases();
    NetworkPhrases();
    SystemPhrases();
    GitPhrases();
    PhraseListsApart(Keys(FileCommands), Keys(NetworkCommands), Keys(SystemCommands), Keys(GitCommands));
    UniqueFromPhrases(FileCommands);
    UniqueFromPhrases(NetworkCommands);
    UniqueFromPhrases(SystemCommands);
    UniqueFromPhrases(GitCommands);
    DisjointFromPhrases(FileCommands, NetworkCommands);
    DisjointFromPhrases(FileCommands, SystemCommands);
    DisjointFromPhrases(FileCommands, GitCommands);
    DisjointFromPhrases(NetworkCommands, SystemCommands);
    DisjointFromPhrases(NetworkCommands, GitCommands);
    DisjointFromPhrases(SystemCommands, GitCommands);
    UniqueConcat(FileCommands, NetworkCommands);
    DisjointConcat(FileCommands, NetworkCommands, SystemCommands);
    UniqueConcat(FileCommands + NetworkCommands, SystemCommands);
    DisjointConcat(FileCommands, NetworkCommands, GitCommands);
    DisjointConcat(FileCommands + NetworkCommands, SystemCommands, GitCommands);
    UniqueConcat(FileCommands + NetworkCommands + SystemCommands, GitCommands);
  }

  /** The query as the lookup compares it: `query.lower().strip()`. */
  function Normalize(query: string): (q: string)
    ensures Trimmed(q)
  {
    Trim(Lower(query))
  }

  /** Upper case and surrounding blanks do not matter: "  IP " asks for "ip". */
  lemma NormalizeExample(query: string)
    requires query == "  IP "
    ensures Normalize(query) == "ip"
  {
    var lowered := Lower(query);
    assert lowered == "  ip ";
    TrimUnique("  ", "ip", " ");
    assert "  " + "ip" + " " == lowered;
  }

  /** The phrases of the table, in table order. */
  function Keys(table: Table): (r: seq<string>)
    ensures |r| == |table| && forall i :: 0 <= i < |table| ==> r[i] == table[i].0
  {
    seq(|table|, i requires 0 <= i < |table| => table[i].0)
  }

  /** Entry `i` is the first one, in table order, whose phrase contains `q`. */
  predicate IsFirstMatch(table: Table, q: string, i: int) {
    IsFirstContaining(Keys(table), q, i)
  }

  /** The record built for entry `i`: its phrase becomes the record's name. */
  function RecordAt(table: Table, i: nat): Record
    requires i < |table|
  {
    Record(table[i].0, table[i].1.mac, table[i].1.win, table[i].1.desc)
  }

  /** The answer of the local tier for an already normalized query. */
  function Find(table: Table, q: string): (r: Option<Record>)
    ensures forall i :: IsFirstMatch(table, q, i) ==> r == Some(RecordAt(table, i))
    ensures r.None? <==> forall j :: 0 <= j < |table| ==> !Contains(table[j].0, q)
  {
    match FirstContaining(Keys(table), q)
    case Some(i) => Some(RecordAt(table, i))
    case None => None
  }

  /**
   * The local lookup loop over an already normalized query: walk the table
   * in order and stop at the first phrase that contains `q`. The record is
   * named after that phrase.
   */
  method Lookup(table: Table, q: string) returns (r: Option<Record>)
    ensures r == Find(table, q)
  {
    r := None;
    for i := 0 to |table|
      invariant r.None?
      invariant forall j :: 0 <= j < i ==> !Contains(table[j].0, q)
    {
      var key := table[i].0;
      var val := table[i].1;
      if Contains(key, q) {
        r := Some(Record(key, val.mac, val.win, val.desc));
        assert IsFirstMatch(table, q, i);
        return;
      }
    }
  }

  /**
   * A query made only of whitespace passes the "non-empty query" guard but
   * strips to "", which every phrase contains: it answers with the first entry.
   */
  lemma WhitespaceQueryHitsFirstEntry(query: string)
    requires AllSpace(query)
    ensures Find(Commands, Normalize(query)) ==
            Some(Record("listar archivos", "ls -la", "dir /a", "Lista todos los archivos, incluyendo los ocultos."))
  {
    LowerAllSpace(query);
    TrimAllSpace(Lower(query));
    CommandsLayout();
    ContainsEmpty(Commands[0].0);
    FindAt(Commands, [], 0);
  }

  /**
   * A query that normalizes to "archivo" (such as " Archivo") is in several
   * phrases ("listar archivos", "mover archivo", "copiar archivo"); the
   * first of them in table order answers, under that phrase's name.
   */
  lemma ArchivoQueryFindsFirstOfSeveral(query: string)
    requires Normalize(query) == "archivo"
    ensures Contains(Commands[3].0, Normalize(query)) && Contains(Commands[4].0, Normalize(query))
    ensures Find(Commands, Normalize(query)) ==
            Some(Record("listar archivos", "ls -la", "dir /a", "Lista todos los archivos, incluyendo los ocultos."))
  {
    var q := Normalize(query);
    CommandsLayout();
    FilePhrases();
    assert Commands[0].0 == Keys(FileCommands)[0];
    assert Commands[3].0 == Keys(FileCommands)[3];
    assert Commands[4].0 == Keys(FileCommands)[4];
    ArchivoInFilePhrases(Keys(FileCommands), q);
    FindAt(Commands, q, 0);
  }

  /** "archivo" is in the first, fourth and fifth phrases of the file section. */
  lemma ArchivoInFilePhrases(f: seq<string>, q: string)
    requires f == ["listar archivos", "crear carpeta", "borrar carpeta", "mover archivo", "copiar archivo", "buscar texto"]
    requires q == "archivo"
    ensures Contains(f[0], q) && Contains(f[3], q) && Contains(f[4], q)
  {
    assert OccursAt(f[0], q, 7);
    assert OccursAt(f[3], q, 6);
    assert OccursAt(f[4], q, 7);
  }

  /**
   * A substring hit that is not a whole phrase: "ip" is in no phrase of the
   * file section and is in "mi ip", the first entry after it.
   */
  lemma IpQueryFindsMiIp(query: string)
    requires Normalize(query) == "ip"
    ensures Find(Commands, Normalize(query)) ==
            Some(Record("mi ip", "ifconfig | grep inet", "ipconfig", "Muestra tu configuración de red y dirección IP."))
  {
    var q := Normalize(query);
    var rest := NetworkCommands + SystemCommands + GitCommands;
    CommandsLayout();
    FilePhrases();
    IpNotInFilePhrases(Keys(FileCommands), q);
    IpInMiIp(rest[0].0, q);
    FirstMatchInSecondPart(Commands, FileCommands, rest, q);
  }

  /** The lookup answers from the head of `b` when no phrase of `a` matches and that head does. */
  lemma FirstMatchInSecondPart(t: Table, a: Table, b: Table, q: string)
    requires t == a + b && b != []
    requires forall j :: 0 <= j < |a| ==> !Contains(a[j].0, q)
    requires Contains(b[0].0, q)
    ensures Find(t, q) == Some(RecordAt(b, 0))
  {
    assert t[|a|] == b[0];
    FindAt(t, q, |a|);
  }

  /** "ip" is in "mi ip". */
  lemma IpInMiIp(phrase: string, q: string)
    requires phrase == "mi ip" && q == "ip"
    ensures Contains(phrase, q)
  {
    assert OccursAt(phrase, q, 3);
  }

  /** No phrase of the file section has an 'i' followed by a 'p'. */
  lemma IpNotInFilePhrases(f: seq<string>, q: string)
    requires f == ["listar archivos", "crear carpeta", "borrar carpeta", "mover archivo", "copiar archivo", "buscar texto"]
    requires q == "ip"
    ensures |f| == 6 && forall j :: 0 <= j < |f| ==> !Contains(f[j], q)
  {
    NoLeadingPair(f[0], q);
    NoLeadingPair(f[1], q);
    NoLeadingPair(f[2], q);
    NoLeadingPair(f[3], q);
    NoLeadingPair(f[4], q);
    NoLeadingPair(f[5], q);
  }

  /** When entry `i` contains `q` and no earlier one does, the lookup answers with entry `i`. */
  lemma FindAt(table: Table, q: string, i: nat)
    requires i < |table| && Contains(table[i].0, q)
    requires forall j :: 0 <= j < i ==> !Contains(table[j].0, q)
    ensures Find(table, q) == Some(RecordAt(table, i))
  {
    assert IsFirstMatch(table, q, i);
  }
}
