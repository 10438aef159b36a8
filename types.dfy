/** The closed enumerations of the reconciliation schema, and an optional value
    standing for the source's `null`. */
module Types {

  /** A value that may be absent (`null` in the source). */
  datatype Option<T> = None | Some(value: T)

  /** Kind of a detected discrepancy. */
  datatype DivergenceType =
    | ProduzidoSemRepasse
    | RepasseSemProducao
    | ValorDivergente
    | PercentualIncorreto
    | ExameNaoPago
    | GlosaInesperada

  /** How urgent a discrepancy is. */
  datatype Severity = Alta | Media | Baixa

  /** Which strategy linked a production entry to a repasse entry. */
  datatype MatchType = Exact | FuzzyName | FuzzyConvenio | CrossMonth | Manual

  /** The thirteen procedure categories. */
  datatype ProcedureCategory =
    | Consulta
    | Cirurgia
    | VideoNaso
    | VideoLaringo
    | VideoGenerico
    | Fees
    | Cerumen
    | CorpoEstranho
    | Otoneurologia
    | TesteAlergico
    | ParesCranianos
    | SemRepasse
    | Outro

  /** The lower-case slug under which a category is stored and compared. */
  function Slug(c: ProcedureCategory): (s: string)
    ensures s != []
  {
    match c
    case Consulta => "consulta"
    case Cirurgia => "cirurgia"
    case VideoNaso => "video_naso"
    case VideoLaringo => "video_laringo"
    case VideoGenerico => "video_generico"
    case Fees => "fees"
    case Cerumen => "cerumen"
    case CorpoEstranho => "corpo_estranho"
    case Otoneurologia => "otoneurologia"
    case TesteAlergico => "teste_alergico"
    case ParesCranianos => "pares_cranianos"
    case SemRepasse => "sem_repasse"
    case Outro => "outro"
  }
}
